# rtpkit: models and proofs

rtpkit reads and writes RTP and RTCP packets, pcap and pcapng captures and UDP frames, follows RTP
streams, recognises RTP flows and converts G.711 audio. This project models that code in Dafny and
proves what its parsers, printers and state machines are for: that they undo each other, that what they
conclude from a run of packets is true of the run, and exactly where each of these claims ends.

Check everything with `dafny verify dfyconfig.toml`.

## How the model is laid out

Bytes are integers 0-255 in sequences, and every integer width of the wire is explicit. An exception is
a `Result`; a generator is a `Run`, the items it yielded and the exception that ended it. Loops and
objects of the code are loops and classes here: each method is proved equal to a recursive specification
function, and the laws are proved of that function.

| component | code | specification and laws |
|---|---|---|
| stream tracker | `StreamTracker` | `StreamHistory` (statistics as functions of the arrivals), `StreamOrder` (true order over whole runs), `ExtSeqs` |
| RTCP | `RtcpParser`, `RtcpBuilder` | `RtcpRoundTrip` (build then parse), `RtcpCanonical` (parse then build, concatenation, lenient mode), `RtcpReference` (the language of the strict parser), `RtcpOutcomes` (what lenient parsing returns, what strict parsing raises), `RtcpRanges` (what can be built, and its layout) |
| RTP | `RtpParser`, `RtpBuilder`, `RtpExtension` | `RtpRoundTrip` (both directions, elements nested in packets, the strict parser's language), `RtpExtensionReference` (what bodies hold) |
| pcapng | `PcapngReader`, `PcapngWriter` | `PcapngReference` (files mean their blocks, malformed ones and what stops the reading included), `PcapngLanguage` (every buffer is such a file or fails at once), `PcapngRoundTrip` |
| pcap | `Pcap` | `PcapReference` (files mean their records, a cut one included, and every buffer with a global header is one), `PcapRoundTrip` |
| frames | `Encap`, `Decap`, `Checksum` | `DecapReference` (which frames carry which datagram), `NetRoundTrip` (round trip under noise), `NetTruncation` |
| detection | `Detection` | the same module: evidence as a function of the whole flow |
| G.711 | `G711`, `G711Encode` | the same modules: the table against the nearest code |

Where a property one would expect is false of the code, the theorem is the exact condition: see
`StreamOrder.ExtsAreTrue`, `StreamHistory.OutOfOrderAsDocumented`, `RtcpRoundTrip.CompoundRoundTripExact`,
`RtcpCanonical.Canonicalisation`, `RtcpRanges.BuildOneOutcome`, `NetRoundTrip.EncapsulationRoundTrip`,
`RtpExtensionReference.AgreesWithRfc`, `PcapngRoundTrip.RoundTripExact` and `G711Encode.UlawRoundTrip`.

The languages of the strict readers are characterised too, by layouts that are told without parsing: see
`RtcpReference.AcceptedMeansWireForms`, `RtpRoundTrip.AcceptedMeansEncoding`,
`RtpExtensionReference.ElementsIff`, `PcapngLanguage.AcceptedMeansFile` and
`PcapReference.AcceptedMeansFile`. `DecapReference.DecapsulatesIff` and
`RtcpOutcomes.LenientMeansFrames` do the same for the two operations that never refuse.

## Where the code and its documentation differ

The model follows the code.

- `src/rtpkit/model/stream.py:20-21` describes out-of-order packets as all those below the highest
  number; the code (`src/rtpkit/stream/tracker.py:43-49`) does not count duplicates among them. The counts
  differ after 10, 11, 10 (`StreamHistory.RepeatIsNotOutOfOrder`), and agree exactly in the runs of
  `StreamHistory.OutOfOrderAsDocumented`.
- `src/rtpkit/stream/tracker.py:102-107` promises unwrapping within half the sequence space; at exactly
  32768 the code decides by the sign of the raw difference, so half of those indices are misread
  (`StreamOrder.UnwrapExact`, `StreamOrder.HalfIsMisread`).
- `src/rtpkit/model/extension.py:78-80` calls id 0 padding; the one-byte parser returns an element with
  id 0 when the length bits are not zero (`RtpExtension.IdZeroIsReturned`;
  `RtpExtensionReference.AgreesWithDocumentation` and `AgreesWithRfc` say when).
- `src/rtpkit/builder/rtcp_builder.py:45-48` promises the build error for any field that does not fit; a
  body of more than 65535 words escapes as the `struct` module's own error (`RtcpRanges.LongAppEscapes`,
  `RtcpRanges.BuildOneOutcome`).
- `src/rtpkit/builder/rtcp_builder.py:79` aligns APP data with zeros that the parser returns as data.

## Model

| member | source | states |
|---|---|---|
| StreamHistory.Unwrap | src/rtpkit/stream/tracker.py:56-66 | the unwrapped number has the arrival's low 16 bits and lies at most 32768 from the high-water mark |
| StreamOrder.UnwrapExact | src/rtpkit/stream/tracker.py:59-66 | unwrapping returns the true index exactly when it is recoverable: strictly within 32768 of the high-water mark, or at exactly 32768 on the side that the sign of the raw difference picks |
| StreamOrder.HalfWindowIsInWindow | src/rtpkit/stream/tracker.py:102-107 | runs whose every arrival is strictly within half the sequence space of the highest index before it are always recoverable |
| StreamOrder.ExtsAreTrue | src/rtpkit/stream/tracker.py:35-66 | over a whole run of any length, every extended number is the true index less one constant multiple of 2^16 exactly when every arrival was recoverable |
| StreamOrder.OrderedRecoversTrueOrder | src/rtpkit/stream/tracker.py:91-92 | in such a run the reordered output lists each distinct true index once, in true order, with the first packet that arrived for it |
| StreamOrder.ArrivalOrderIsIrrelevant | src/rtpkit/stream/tracker.py:91-92 | two such runs over the same true indices, in any two orders, with any repetitions and from different first packets, give the same reordered output |
| StreamOrder.LossIsTrueLoss | src/rtpkit/stream/tracker.py:74-89 | the loss of such a run is the number of true indices missing since the first arrival's, less those that arrived although they come before it, never below zero |
| StreamHistory.ArrivalsPartition | src/rtpkit/stream/tracker.py:43-52 | over every run the arrivals are the duplicates, plus the out-of-order ones, plus those that set a new high-water mark |
| StreamHistory.OutOfOrderAsDocumented | src/rtpkit/model/stream.py:20-21 | the out-of-order count never exceeds the documented one, all arrivals below the highest number, and equals it if and only if no number below the highest arrives again |
| StreamHistory.RepeatIsNotOutOfOrder | src/rtpkit/stream/tracker.py:43-49 | after the numbers 10, 11, 10 the code counts 0 packets out of order and the documentation 1 |
| StreamOrder.OutOfOrderIsTrue | src/rtpkit/model/stream.py:20-21 | in a recoverable run the count is that of the true indices below the highest before them, if and only if none of these is a repeat |
| StreamOrder.HalfIsMisread | src/rtpkit/stream/tracker.py:59-66 | at exactly half the sequence space: index 65536 after 32768 is taken for 0, and is outside the window |
| StreamHistory.SeenSize | src/rtpkit/stream/tracker.py:43-47 | over every run the distinct numbers are the arrivals less the duplicates |
| StreamHistory.LossAccounting | src/rtpkit/stream/tracker.py:75-83 | expected less distinct received equals holes in [first, highest] less numbers received below the first, and the holes are fewer than expected |
| StreamHistory.LossIsBelowExpected | src/rtpkit/model/stream.py:17-19 | the loss is expected less received, clamped at zero, and always below expected |
| StreamHistory.JitterBounded | src/rtpkit/stream/tracker.py:68-72 | after any run the jitter lies between zero and the largest change of transit time |
| StreamHistory.JitterIgnoresDelay | src/rtpkit/stream/tracker.py:68-72 | a constant delay added to every transit time leaves the jitter unchanged |
| StreamHistory.JitterGain | src/rtpkit/stream/tracker.py:68-72 | of a steady change of transit time, every arrival closes a sixteenth of the gap between it and the jitter |
| StreamHistory.JitterStep | src/rtpkit/stream/tracker.py:68-72 | at one clock rate every arrival moves the jitter a sixteenth of the way to the size of D, how much later a packet arrived than its timestamp says: (R_i - R_(i-1)) * rate - (S_i - S_(i-1)), as section 6.4.1 of RFC 3550 defines it |
| StreamHistory.JitterOfPunctualStream | src/rtpkit/stream/tracker.py:68-72 | a stream whose packets arrive as far apart as their timestamps say has jitter 0 |
| StreamHistory.JitterOfSteadyStream | src/rtpkit/stream/tracker.py:68-72 | of a D of steady size, every arrival closes a sixteenth of the gap between it and the jitter |
| StreamHistory.SnapshotStep | src/rtpkit/model/stream.py:15-25 | one arrival more: the payload type is the latest packet's, all packets are counted, the first number stays, and the highest and the counts never fall |
| StreamTracker.StreamState.constructor | src/rtpkit/stream/tracker.py:22-33 | a new state satisfies the invariant for the empty history |
| StreamTracker.StreamState.Observe | src/rtpkit/stream/tracker.py:35-54 | one observation extends the history by that arrival and keeps every field equal to its function of the whole history: counts, first and highest numbers, seen set, stored packets, transit and jitter |
| StreamTracker.StreamState.Record | src/rtpkit/stream/tracker.py:43-49 | a repeated number is counted and changes nothing else; a new one is stored with its packet and counted as out of order when below the high-water mark |
| StreamTracker.StreamState.Extend | src/rtpkit/stream/tracker.py:56-66 | the cycle arithmetic of the code is the unwrapping function |
| StreamTracker.StreamState.UpdateJitter | src/rtpkit/stream/tracker.py:68-72 | the transit time is stored, and the jitter moves a sixteenth of the way to its change, not at all on the first arrival |
| StreamTracker.StreamState.Snapshot | src/rtpkit/stream/tracker.py:74-89 | the snapshot's arithmetic on counters gives the statistics of the history, whose loss is counted in sets of numbers |
| StreamTracker.StreamState.OrderedPackets | src/rtpkit/stream/tracker.py:91-92 | listing the stored packets by key gives the first packet of each number in the order of the numbers |
| StreamTracker.FirstPacketsAreFirstArrivals | src/rtpkit/stream/tracker.py:45-47 | the stored packets are keyed by the numbers that arrived, each holding its first packet |
| StreamTracker.ListedIsOrdered | src/rtpkit/stream/tracker.py:91-92 | sorting the keys of the stored packets is the history's reordered output |
| StreamTracker.RtpStreamTracker.constructor | src/rtpkit/stream/tracker.py:114-115 | a new tracker knows no streams |
| StreamTracker.RtpStreamTracker.Observe | src/rtpkit/stream/tracker.py:117-128 | an arrival reaches its own SSRC's state and no other; every state has seen exactly its own stream's arrivals, in order |
| StreamTracker.RtpStreamTracker.SsrcsSeen | src/rtpkit/stream/tracker.py:130-132 | the SSRCs in the order they first appeared in the history |
| StreamTracker.RtpStreamTracker.Stats | src/rtpkit/stream/tracker.py:134-137 | the statistics of one stream's arrivals, or nothing if it had none |
| StreamTracker.RtpStreamTracker.AllStats | src/rtpkit/stream/tracker.py:139-141 | exactly the streams observed, each with the statistics of its own arrivals |
| StreamTracker.RtpStreamTracker.OrderedPackets | src/rtpkit/stream/tracker.py:143-146 | the reordered output of one stream's arrivals |
| RtcpParser.ParseReportBlocks | src/rtpkit/parser/rtcp_parser.py:149-175 | the block loop computes the recursive reading of the blocks, losses sign-extended from 24 bits, or reports too few bytes |
| RtcpParser.ParseItems | src/rtpkit/parser/rtcp_parser.py:213-229 | the item loop computes the reading of one chunk's items up to their null, and every way it can be truncated |
| RtcpParser.ParseSdes | src/rtpkit/parser/rtcp_parser.py:202-238 | the nested loops compute the reading of all chunks, filler counted from each chunk's start |
| RtcpParser.ParseBye | src/rtpkit/parser/rtcp_parser.py:241-256 | sources, and a reason when bytes are left, or a truncation error |
| RtcpParser.ParseOne | src/rtpkit/parser/rtcp_parser.py:135-146 | dispatch on the packet type; unknown types are malformed |
| RtcpParser.ParseCompound | src/rtpkit/parser/rtcp_parser.py:59-132 | the compound loop, strict and lenient, computes the run of steps that the laws below are about |
| RtcpRoundTrip.BlocksRoundTrip | src/rtpkit/builder/rtcp_builder.py:92-105 | report blocks come back, negative loss counts included, whatever follows |
| RtcpRoundTrip.ItemsRoundTrip | src/rtpkit/builder/rtcp_builder.py:130-136 | the items of a chunk come back, and reading stops behind the null |
| RtcpRoundTrip.ChunkRoundTrip | src/rtpkit/builder/rtcp_builder.py:139-142 | a chunk and its filler are read as that chunk, all of its bytes used |
| RtcpRoundTrip.ChunksRoundTrip | src/rtpkit/builder/rtcp_builder.py:145-148 | chunks come back in order, whatever follows |
| RtcpRoundTrip.SenderReportRoundTrip | src/rtpkit/builder/rtcp_builder.py:108-121 | a sender report's body is read back as the report |
| RtcpRoundTrip.ReceiverReportRoundTrip | src/rtpkit/builder/rtcp_builder.py:124-127 | a receiver report's body is read back as the report |
| RtcpRoundTrip.SdesRoundTrip | src/rtpkit/builder/rtcp_builder.py:145-148 | a source description's body is read back as the description |
| RtcpRoundTrip.ByeRoundTrip | src/rtpkit/builder/rtcp_builder.py:151-159 | an aligned BYE body is read back: no reason stays none, an empty reason stays empty |
| RtcpRoundTrip.AppRoundTrip | src/rtpkit/builder/rtcp_builder.py:162-172 | an aligned APP body is read back with the alignment zeros joined to its data |
| RtcpRoundTrip.PaddingRoundTrip | src/rtpkit/builder/rtcp_builder.py:79-81 | padding that is a multiple of 4 is found and stripped, leaving the aligned body |
| RtcpRoundTrip.StepRoundTrip | src/rtpkit/builder/rtcp_builder.py:53-84 | a built packet in front of any bytes is taken whole, in both modes, as the packet it was built from |
| RtcpRoundTrip.PacketsRoundTrip | src/rtpkit/builder/rtcp_builder.py:50 | built packets in front of any bytes are read first, then what the rest gives |
| RtcpRoundTrip.CompoundRoundTrip | src/rtpkit/builder/rtcp_builder.py:40-84 | parse(build(ps)) == ps, up to the zeros aligning APP data, for every non-empty list that builds, in both modes |
| RtcpRoundTrip.CompoundRoundTripExact | src/rtpkit/builder/rtcp_builder.py:79 | the round trip is exact if and only if every APP packet's data is a multiple of 4 bytes |
| RtcpRoundTrip.EmptyCompoundIsRejected | src/rtpkit/parser/rtcp_parser.py:63-65 | the empty list builds to an empty buffer, which both modes reject |
| RtcpCanonical.BlocksCanonical | src/rtpkit/parser/rtcp_parser.py:149-175 | parsed report blocks are rebuilt byte for byte |
| RtcpCanonical.ItemsCanonical | src/rtpkit/parser/rtcp_parser.py:213-229 | parsed items are rebuilt byte for byte, and the byte behind them is the null |
| RtcpCanonical.ChunkCanonical | src/rtpkit/parser/rtcp_parser.py:206-236 | a parsed chunk is rebuilt to the same length |
| RtcpCanonical.ChunksCanonical | src/rtpkit/parser/rtcp_parser.py:206-236 | parsed chunks are rebuilt in no more bytes than were read |
| RtcpCanonical.ReportsCanonical | src/rtpkit/parser/rtcp_parser.py:178-199 | rebuilding a parsed report gives the content without trailing profile data |
| RtcpCanonical.ByeCanonical | src/rtpkit/parser/rtcp_parser.py:241-256 | rebuilding a parsed BYE gives no more bytes than its content, slack dropped |
| RtcpCanonical.AppCanonical | src/rtpkit/parser/rtcp_parser.py:259-264 | a parsed APP packet can be rebuilt if and only if its name was ASCII, and then byte for byte |
| RtcpCanonical.StepCanonical | src/rtpkit/parser/rtcp_parser.py:78-130 | a packet taken off the wire in either mode can be rebuilt if and only if its padding is a multiple of 4 and an APP name is ASCII, and then in no more bytes |
| RtcpCanonical.Canonicalisation | src/rtpkit/parser/rtcp_parser.py:59-132 | for every accepted buffer: the result can be rebuilt if and only if paddings are multiples of 4 and APP names ASCII; the rebuilt buffer is no longer than the input and re-parses to the same packets in both modes |
| RtcpCanonical.CanonicalFormIsStable | src/rtpkit/builder/rtcp_builder.py:40-84 | rebuilding a canonical buffer gives that buffer |
| RtcpCanonical.PacketsConcat | src/rtpkit/parser/rtcp_parser.py:70-132 | what is read of a++b is what is read of an accepted a, then what is read of b |
| RtcpCanonical.CompoundConcat | src/rtpkit/parser/rtcp_parser.py:59-132 | parsing a++b for an accepted a is the concatenation of the results, or b's own error; nothing, or leniently up to three bytes, may follow a |
| RtcpCanonical.AcceptedMeansFrames | src/rtpkit/parser/rtcp_parser.py:59-132 | a buffer is strictly accepted as ps if and only if it is the concatenation of at least one frame, each accepted alone as one packet of ps, in order |
| RtcpCanonical.LenientRefinesStrict | src/rtpkit/parser/rtcp_parser.py:70-132 | the packets strict parsing gathers before it ends or raises are a prefix of the lenient ones, equal when it does not raise |
| RtcpCanonical.LenientAcceptsMore | src/rtpkit/parser/rtcp_parser.py:47-65 | strict success is lenient success with the same packets; lenient parsing fails if and only if there are fewer than 4 bytes |
| RtcpReference.ChunkIff | src/rtpkit/parser/rtcp_parser.py:206-236 | bytes are read as a chunk if and only if they begin with its SSRC, its items and a null, and the filler is there |
| RtcpReference.ChunksIff | src/rtpkit/parser/rtcp_parser.py:202-238 | bytes are read as chunks if and only if they are these forms one behind the other, with anything behind the last |
| RtcpReference.SenderIff | src/rtpkit/parser/rtcp_parser.py:178-191 | a content is read as a sender report if and only if it begins with the report's body; profile data may follow |
| RtcpReference.ReceiverIff | src/rtpkit/parser/rtcp_parser.py:194-199 | the same for receiver reports |
| RtcpReference.ByeIff | src/rtpkit/parser/rtcp_parser.py:241-256 | a content is read as a BYE if and only if it is its sources alone, or begins with sources and reason |
| RtcpReference.BodyIff | src/rtpkit/parser/rtcp_parser.py:135-146 | a content of a type and count is read as a packet if and only if it is one of the packet's forms |
| RtcpReference.FrameIff | src/rtpkit/parser/rtcp_parser.py:78-130 | a buffer is taken whole as a packet if and only if header, content form, filler and padding count are that packet's |
| RtcpReference.AcceptedMeansWireForms | src/rtpkit/parser/rtcp_parser.py:59-132 | the language of the strict parser: a buffer is accepted as ps if and only if it is the concatenation of wire forms of those packets, at least one, in order |
| RtcpOutcomes.TypeNumbers | src/rtpkit/model/rtcp.py:24-31 | the type bytes of the five shapes are 200 to 204 |
| RtcpOutcomes.CutIntoFrames | src/rtpkit/parser/rtcp_parser.py:70-98 | every buffer is frames as long as their length fields say and a remainder that is under 4 bytes or declares more than is left |
| RtcpOutcomes.FrameStep | src/rtpkit/parser/rtcp_parser.py:98-130 | leniently a frame is taken whole whatever follows it, with the packet its content reads as, or with none |
| RtcpOutcomes.FrameBodyIff | src/rtpkit/parser/rtcp_parser.py:98-120 | a frame of any version reads as a packet if and only if it is a lenient form of it, an absent or senseless padding count meaning no padding |
| RtcpOutcomes.LenientMeansFrames | src/rtpkit/parser/rtcp_parser.py:47-132 | lenient parsing returns, in order, the packets of exactly the frames that have a lenient form, and passes over the others |
| RtcpOutcomes.FeedbackIsPassedOver | src/rtpkit/parser/rtcp_parser.py:119-130 | a feedback packet (type 205) in front of a receiver report is passed over and the report returned |
| RtcpOutcomes.RefusedIff | src/rtpkit/parser/rtcp_parser.py:70-123 | each error of one strict step is raised over exactly the bytes that lack what it names: a header, version 2, the declared length, a wire form |
| RtcpOutcomes.StrictErrors | src/rtpkit/parser/rtcp_parser.py:36-132 | which error strict parsing raises: for the first bytes that are no wire form, behind some wire forms, the error that says what is wrong with them |
| RtcpRanges.JoinMapOutcome | src/rtpkit/builder/rtcp_builder.py:50 | joining fails exactly when some part does, with the error of the first part that does |
| RtcpRanges.BlockOutcome | src/rtpkit/builder/rtcp_builder.py:92-105 | a report block is serialised if and only if every field is in its range |
| RtcpRanges.ChunkOutcome | src/rtpkit/builder/rtcp_builder.py:139-142 | a chunk is serialised if and only if its SSRC and items fit, to its aligned size |
| RtcpRanges.SerializeOutcome | src/rtpkit/builder/rtcp_builder.py:53-70 | a packet's body is serialised if and only if its fields fit, to a computed size; otherwise the build error is raised |
| RtcpRanges.BuildOneOutcome | src/rtpkit/builder/rtcp_builder.py:53-84 | the build error is raised if and only if a field or the padding does not fit; the bare struct error if and only if all fit but the body exceeds 65535 words; otherwise the packet is built |
| RtcpRanges.LongAppEscapes | src/rtpkit/builder/rtcp_builder.py:84 | an APP packet with 262144 bytes of data raises the bare struct error |
| RtcpRanges.BuildOneFrame | src/rtpkit/builder/rtcp_builder.py:79-84 | version, padding flag, count, type, length word, body, zero filler and padding count of every built packet stand where section 6.4.1 of RFC 3550 puts them |
| RtcpRanges.BuildOutcome | src/rtpkit/builder/rtcp_builder.py:40-50 | a list builds if and only if each packet does; the first that does not decides the error |
| RtcpRanges.ReceiverReportLayout | src/rtpkit/builder/rtcp_builder.py:124-127 | a receiver report is its SSRC and its blocks |
| RtcpRanges.ItemLayout | src/rtpkit/builder/rtcp_builder.py:130-136 | an item is its type, its length and its text |
| RtcpRanges.ChunkLayout | src/rtpkit/builder/rtcp_builder.py:139-142 | a chunk is its SSRC, its items and one to four zeros |
| RtcpRanges.ByeLayout | src/rtpkit/builder/rtcp_builder.py:151-159 | a BYE is its sources, and length and bytes of its reason if it has one |
| RtcpRanges.AppLayout | src/rtpkit/builder/rtcp_builder.py:162-172 | an APP packet is its SSRC, the four characters of its name and its data |
| RtcpRanges.BlockLayout | src/rtpkit/builder/rtcp_builder.py:92-105 | a report block's six words hold its fields, the loss modulo 2^24 |
| RtcpRanges.SenderReportLayout | src/rtpkit/builder/rtcp_builder.py:108-121 | a sender report's words hold its SSRC and sender information, its blocks behind them |
| PcapngReader.IterOptions | src/rtpkit/io/pcapng_reader.py:134-144 | the option loop computes the list of options, stopping at the end mark or at one that does not fit |
| PcapngReader.ParseIfTsresol | src/rtpkit/io/pcapng_reader.py:147-153 | the loop finds the resolution of the first usable option, as ticks per second |
| PcapngReader.PowerAdds | src/rtpkit/io/pcapng_reader.py:151 | powers multiply as exponents add, and the first power is the base |
| PcapngReader.Resolutions | src/rtpkit/io/pcapng_reader.py:147-153 | option 9 with 6, 9, 0x8A, 0 and 0x80 gives 10^6, 10^9, 1024, 1 and 1 ticks per second, and no option 10^6 |
| PcapngReader.ParseIdb | src/rtpkit/io/pcapng_reader.py:156-161 | an interface's link type and resolution, or too short |
| PcapngReader.ApplyBlock | src/rtpkit/io/pcapng_reader.py:115-129 | a block's body adds an interface, yields a packet, does neither, or is malformed |
| PcapngReader.ReadPcapng | src/rtpkit/io/pcapng_reader.py:68-131 | the block loop, strict and lenient, computes the run of steps that the laws below are about |
| PcapngReference.ResolutionIsDeclared | src/rtpkit/io/pcapng_reader.py:147-153 | the first option of code 9 with a value sets the resolution, a power of 2 or of 10 by its top bit; without one it is 10^6 |
| PcapngReference.OptionsRoundTrip | src/rtpkit/io/pcapng_reader.py:134-144 | options printed in either byte order with any filler are read back, however the list stops: with the body, at an end mark, at an option that claims too much, or with an incomplete filler |
| PcapngReference.IdbMeans | src/rtpkit/io/pcapng_reader.py:156-161 | a printed interface description is read as its link type and declared resolution |
| PcapngReference.EpbMeans | src/rtpkit/io/pcapng_reader.py:164-182 | a printed enhanced packet is read with its interface's link type and resolution, or refused if and only if the interface is undeclared |
| PcapngReference.SpbMeans | src/rtpkit/io/pcapng_reader.py:185-200 | a printed simple packet is cut to its original length and has the first interface's link type, or 0 |
| PcapngReference.OverrunMeans | src/rtpkit/io/pcapng_reader.py:168-170 | an enhanced packet that claims more data than its body has is malformed |
| PcapngReference.ShortMeans | src/rtpkit/io/pcapng_reader.py:157-158 | a body too short for its type is malformed |
| PcapngReference.FormatNumbers | src/rtpkit/io/pcapng_reader.py:25-37 | block types 1, 3 and 6, and four zeros for the end of options in either byte order |
| PcapngReference.HeaderBytes | src/rtpkit/io/pcapng_reader.py:25-34 | the twelve bytes of the shortest section headers, in either byte order |
| PcapngReference.TailMeans | src/rtpkit/io/pcapng_reader.py:80-113 | what stops the reading yields nothing, with the error its kind and the mode call for: too few bytes, a claimed length that is too small or too large, an unknown byte-order mark |
| PcapngReference.CutIsTail | src/rtpkit/io/pcapng_reader.py:80-113 | a block or section header cut anywhere is such a stop; its strict error tells whether its first 12 bytes are missing |
| PcapngReference.BlockStep | src/rtpkit/io/pcapng_reader.py:80-131 | a printed block in front of any bytes is taken whole with its meaning; a section header sets the byte order and forgets the interfaces |
| PcapngReference.BlocksMean | src/rtpkit/io/pcapng_reader.py:80-131 | any printed blocks inside a section, and what stops the reading behind them, are read in both modes as what they mean |
| PcapngReference.FileMeans | src/rtpkit/io/pcapng_reader.py:68-131 | every section header and blocks behind it - any byte orders, sections, options, resolutions, unknown or malformed blocks and repeated lengths, section headers as short as 12 bytes - and whatever stops the reading, be it in the first header, are read as what they mean; malformed blocks and undeclared interfaces end a strict run and are skipped in a lenient one, where a skipped description shifts the interfaces behind it |
| PcapngLanguage.OptionsOf | src/rtpkit/io/pcapng_reader.py:134-144 | every sequence of bytes is a list of options that stops in one of the four ways |
| PcapngLanguage.BlockOf | src/rtpkit/io/pcapng_reader.py:115-125 | every body of every type is a block's, well-formed or malformed, in either byte order |
| PcapngLanguage.FileOf | src/rtpkit/io/pcapng_reader.py:68-131 | every buffer of at least 12 bytes that begins with a section header's type is such a file, so FileMeans and BadStart together determine the reading of every buffer in both modes |
| PcapngLanguage.AcceptedMeansFile | src/rtpkit/io/pcapng_reader.py:47-54 | the language of the strict reader: a buffer is read without an error as ps if and only if it is laid out as a section header and blocks whose meaning is ps, none malformed and nothing behind |
| PcapngReference.BadStart | src/rtpkit/io/pcapng_reader.py:72-103 | fewer than 12 bytes, no section header at the start, or an unknown byte-order mark in it: both modes raise the error for it and yield nothing |
| PcapngReference.LenientErrors | src/rtpkit/io/pcapng_reader.py:57-65 | a buffer that begins with a section header's type is read leniently without an error, unless one of its section headers has an unknown byte-order mark |
| PcapngWriter.LinkTypes | src/rtpkit/io/pcapng_writer.py:29-35 | the distinct link types of the packets, each once |
| PcapngWriter.BuildTable | src/rtpkit/io/pcapng_writer.py:29-35 | the table loop numbers each link type by its place in first-appearance order |
| PcapngWriter.WritePcapng | src/rtpkit/io/pcapng_writer.py:25-40 | the writer's loops compute header, interface descriptions and packets in order, or the first struct error |
| PcapngRoundTrip.BlockFrame | src/rtpkit/io/pcapng_writer.py:43-46 | a wrapped block is whole words, its length stands in it twice, and its filler is zero |
| PcapngRoundTrip.HeaderFields | src/rtpkit/io/pcapng_writer.py:49-56 | version 1.0 and unspecified length of the section header, snap length 2^18 of an interface |
| PcapngRoundTrip.WrittenTypes | src/rtpkit/io/pcapng_writer.py:19-22 | the written blocks have types 0x0A0D0D0A, 1 and 6, and the little-endian byte-order mark |
| PcapngRoundTrip.WrappedStep | src/rtpkit/io/pcapng_writer.py:43-46 | a wrapped block in front of any bytes is taken whole, and its padded body has its effect |
| PcapngRoundTrip.ShbStep | src/rtpkit/io/pcapng_writer.py:49-51 | the written section header opens a little-endian section without interfaces |
| PcapngRoundTrip.IdbStep | src/rtpkit/io/pcapng_writer.py:54-56 | a written interface description adds that link type at microseconds |
| PcapngRoundTrip.EpbStep | src/rtpkit/io/pcapng_writer.py:59-65 | a written packet block yields its packet on the microsecond grid |
| PcapngRoundTrip.IdbsRoundTrip | src/rtpkit/io/pcapng_writer.py:29-40 | the written descriptions leave the reader with the interface list of the table |
| PcapngRoundTrip.EpbsRoundTrip | src/rtpkit/io/pcapng_writer.py:29-40 | the written packets are yielded in order under that list |
| PcapngRoundTrip.WriteReadRoundTrip | src/rtpkit/io/pcapng_writer.py:25-65 | reading what was written yields, in both modes and without complaint, the packets in order: data, link type, original length and microsecond tick, for any mix of link types |
| PcapngRoundTrip.RoundTripExact | src/rtpkit/io/pcapng_writer.py:59-65 | a packet is unchanged if and only if its length is its data's and its timestamp is a whole tick below 2^64 |
| PcapngRoundTrip.InterfaceTable | src/rtpkit/io/pcapng_writer.py:29-35 | the table holds exactly the link types used, in order of first use, and at every packet's interface number the reader's list has that packet's link type |
| PcapngRoundTrip.TableInOrder | src/rtpkit/io/pcapng_writer.py:29-35 | earlier table entries were first used earlier |
| PcapngRoundTrip.FewInterfaces | src/rtpkit/io/pcapng_writer.py:54-65 | distinct 16-bit link types never exhaust the 32-bit interface numbers |
| PcapngRoundTrip.WriteOutcome | src/rtpkit/io/pcapng_writer.py:25-65 | the writer raises if and only if some packet has a link type, original length or block too large for its field |
| PcapngRoundTrip.SectionStartsAfresh | src/rtpkit/io/pcapng_reader.py:90-100 | what is read from a section header on does not depend on the section before it |
| PcapngRoundTrip.PacketsConcat | src/rtpkit/io/pcapng_reader.py:80-131 | an accepted stretch of blocks in front of a section header contributes its packets and nothing else |
| PcapngRoundTrip.ReadConcat | src/rtpkit/io/pcapng_reader.py:80-131 | reading two files one behind the other, the first accepted, yields the packets of the first and then whatever the second gives alone, even in another byte order |
| PcapngRoundTrip.FilesConcat | src/rtpkit/io/pcapng_reader.py:80-131 | two strictly accepted files one behind the other are an accepted file of the packets of both |
| PcapngRoundTrip.LenientRefinesStrict | src/rtpkit/io/pcapng_reader.py:80-131 | from any state, strict packets are a prefix of the lenient ones, equal when the strict run ends without error |
| PcapngRoundTrip.LenientYieldsMore | src/rtpkit/io/pcapng_reader.py:47-65 | the same for whole files |
| Pcap.ReadPcap | src/rtpkit/io/pcap_reader.py:47-93 | the record loop, strict and lenient, computes the run of steps that the laws below are about |
| Pcap.WritePcap | src/rtpkit/io/pcap_writer.py:22-53 | link-type checks, header and records in order, or the error that stops them |
| PcapReference.MagicBytes | src/rtpkit/io/pcap_reader.py:15-25 | each of the four magic numbers, in its byte order, selects that order and resolution |
| PcapReference.HeaderMeans | src/rtpkit/io/pcap_reader.py:51-61 | a printed global header is read as its byte order, resolution and link type |
| PcapReference.RecordMeans | src/rtpkit/io/pcap_reader.py:63-91 | a printed record in front of any bytes is taken whole as its packet |
| PcapReference.CutMeans | src/rtpkit/io/pcap_reader.py:65-81 | a record cut short yields nothing; strictly the error tells a missing header from missing data |
| PcapReference.FileMeans | src/rtpkit/io/pcap_reader.py:47-93 | every pcap file of either byte order and resolution, whole or cut inside a record, is read as what its records mean, with exactly the error the mode and the cut call for |
| PcapReference.FileOf | src/rtpkit/io/pcap_reader.py:47-93 | every buffer with a readable global header is a file with at most a cut record behind it |
| PcapReference.AcceptedMeansFile | src/rtpkit/io/pcap_reader.py:28-34 | the language of the strict reader: a buffer is read without an error as ps if and only if it is a file whose records mean ps |
| PcapReference.HeaderFails | src/rtpkit/io/pcap_reader.py:51-58 | both modes fail at once if and only if there are fewer than 24 bytes or none of the four magic numbers |
| PcapRoundTrip.SplitIsRound | src/rtpkit/io/pcap_writer.py:56-62 | for a non-negative timestamp the microseconds are below 10^6, and seconds and microseconds together are the half-even rounded tick |
| PcapRoundTrip.SplitIsDivision | src/rtpkit/io/pcap_writer.py:56-62 | so the split with its carry is division of that tick by 10^6 |
| PcapRoundTrip.NegativeSplit | src/rtpkit/io/pcap_writer.py:56-62 | a negative timestamp splits without a carry into parts that are not positive, so only one that rounds to tick 0 can be written |
| PcapRoundTrip.HeaderFields | src/rtpkit/io/pcap_writer.py:46 | version 2.4, zone and accuracy zero, snap length 2^18 and link type of the global header |
| PcapRoundTrip.WriteReadRoundTrip | src/rtpkit/io/pcap_writer.py:22-62 | reading what was written yields the packets in order, on the microsecond grid, in both modes; a written file has one link type |
| PcapRoundTrip.FormatsAgree | src/rtpkit/io/pcap_writer.py:46-62 | packets of one link type that both writers accept read back the same from a pcap and from a pcapng file, whatever their timestamps |
| PcapRoundTrip.RecordOutcome | src/rtpkit/io/pcap_writer.py:47-51 | a record is written if and only if its rounded tick count lies in [0, 2^32 * 10^6) and data length and original length fit |
| PcapRoundTrip.WriteOutcome | src/rtpkit/io/pcap_writer.py:34-53 | the writer raises its own error if and only if there is no link type to take or a packet has another, and else the struct error if and only if the link type or a record does not fit |
| PcapRoundTrip.RecordsLenient | src/rtpkit/io/pcap_reader.py:63-93 | from any offset, lenient reading yields exactly the strict packets and ends where strict reading raises |
| PcapRoundTrip.LenientYieldsTheSame | src/rtpkit/io/pcap_reader.py:28-61 | both modes yield the same packets from every buffer; lenient reading raises only over the global header |
| PcapRoundTrip.RecordsConcat | src/rtpkit/io/pcap_reader.py:63-93 | records behind accepted records are read as they would be alone |
| Capture.RoundShift | src/rtpkit/io/pcap_writer.py:58 | rounding half to even commutes with adding an even integer, so a second can be split off before rounding |
| Capture.Round | src/rtpkit/io/pcap_writer.py:58 | rounding is to a nearest integer, and halves go to the even one |
| Capture.FieldOfPack | src/rtpkit/io/pcapng_reader.py:105-106 | an integer packed in a byte order is read back in it, wherever it stands |
| Capture.PackOfField | src/rtpkit/io/pcap_reader.py:61 | an integer read in a byte order is packed to the bytes it came from |
| Checksum.FoldKeepsOnesSum | src/rtpkit/io/encap.py:106-107 | one fold of the carries makes the sum smaller and keeps its one's-complement value |
| Checksum.Checksum16 | src/rtpkit/io/encap.py:102-108 | the padded sum and the folding loop compute the complement of the one's-complement sum of the data's words, for any length |
| Checksum.ChecksumVerifies | src/rtpkit/io/encap.py:102-108 | adding the checksum makes the sum fold to 0xFFFF; so does 0xFFFF where the checksum was 0 |
| Checksum.WordSumConcat | src/rtpkit/io/encap.py:105 | the word sum of data split at an even offset is the sum of the parts |
| Encap.UdpChecksumVerifies | src/rtpkit/io/encap.py:111-133 | every built segment of any length folds with its pseudo-header to 0xFFFF and carries a non-zero checksum |
| Encap.Ipv4ChecksumVerifies | src/rtpkit/io/encap.py:136-153 | every built IPv4 header folds to 0xFFFF |
| Encap.PseudoHeaderFields | src/rtpkit/io/encap.py:118-130 | addresses, length and protocol 17 of the pseudo-header stand where RFC 768 and section 8.1 of RFC 8200 put them |
| Encap.LinkHeaders | src/rtpkit/io/encap.py:20-30 | the bytes in front of the packet, for each link type and IP version |
| Encap.UdpFields | src/rtpkit/io/encap.py:111-115 | ports, length and payload of a built segment stand where RFC 768 puts them |
| Encap.Ipv4Fields | src/rtpkit/io/encap.py:136-153 | version, lengths, fragment fields, hop count, protocol, addresses and segment of a built IPv4 packet |
| Encap.Ipv6Fields | src/rtpkit/io/encap.py:156-159 | version word, payload length, next header, hop limit, addresses and segment of a built IPv6 packet |
| Encap.EncapsulateOutcome | src/rtpkit/io/encap.py:36-87 | a frame is built if and only if the link type is supported, the versions match, both ports fit and the payload fits the length fields |
| Decap.StripEthernet | src/rtpkit/io/decap.py:69-81 | the tag loop computes the bounded walk over VLAN tags |
| Decap.DecapIpv6 | src/rtpkit/io/decap.py:121-146 | the header loop computes the bounded walk over extension headers |
| Decap.DecapsulateUdp | src/rtpkit/io/decap.py:37-56 | link layer, IP version and UDP in turn, or nothing |
| DecapReference.TagsIff | src/rtpkit/io/decap.py:69-81 | an Ethernet frame carries a packet if and only if it stands behind at most two 0x8100 tags, with its type in front of it |
| DecapReference.LinkIff | src/rtpkit/io/decap.py:59-99 | what stripping the link layer gives, for link types 1, 113 and 101, if and only if the frame carries it so |
| DecapReference.UdpIff | src/rtpkit/io/decap.py:149-154 | ports and payload of a segment of 8 bytes or more; a length field that cannot be right is not believed |
| DecapReference.Ipv4Iff | src/rtpkit/io/decap.py:102-118 | a datagram is found if and only if version is 4, the header has 20 bytes or more and fits, the protocol is 17 and a datagram is behind; a total length that cannot be right is not believed |
| DecapReference.WalkIff | src/rtpkit/io/decap.py:130-144 | the walk ends on UDP if and only if a chain of at most so many whole extension headers (0, 43, 44, 60) leads to type 17 |
| DecapReference.Ipv6Iff | src/rtpkit/io/decap.py:121-146 | a datagram is found if and only if version is 6, a chain of at most eight extension headers leads to type 17 and a datagram is behind |
| DecapReference.DecapsulatesIff | src/rtpkit/io/decap.py:37-154 | decapsulation returns a datagram if and only if the frame carries it, said over the bytes with all numbers written out |
| DecapReference.TcpIsRefused | src/rtpkit/io/decap.py:110-111 | an IPv4 packet of protocol 6 is refused |
| NetRoundTrip.UdpRoundTrip | src/rtpkit/io/decap.py:149-154 | a built segment with trailing bytes gives back ports and payload |
| NetRoundTrip.Ipv4RoundTrip | src/rtpkit/io/decap.py:102-118 | a built IPv4 packet with trailing bytes gives back addresses, ports and payload |
| NetRoundTrip.ChainIsSkipped | src/rtpkit/io/decap.py:130-143 | a chain of well-formed extension headers is skipped whole up to eight; beyond, the walk stops on a header |
| NetRoundTrip.TagsAreStripped | src/rtpkit/io/decap.py:69-81 | VLAN tags are stripped whole up to two; beyond, the walk stops on a tag |
| NetRoundTrip.Ipv6RoundTrip | src/rtpkit/io/decap.py:121-146 | a built IPv6 packet with extension headers inserted, any payload-length field and trailing bytes is read back if and only if there are at most eight headers |
| NetRoundTrip.LengthCanCount | src/rtpkit/io/encap.py:157 | among those length fields is the one that counts the inserted headers, as a sender would write it |
| NetRoundTrip.EncapsulationRoundTrip | src/rtpkit/io/decap.py:37-154 | for all link types and both IP versions, an encapsulated payload comes back with its addresses and ports behind any VLAN tags and extension headers, under any IPv6 payload length where headers are inserted, and before any trailer, if and only if there are at most two tags and eight headers |
| NetTruncation.Ipv4OptionsAreSkipped | src/rtpkit/io/decap.py:102-118 | an IPv4 header of any length is skipped by its own count |
| NetTruncation.UdpTruncated | src/rtpkit/io/decap.py:149-154 | a segment cut short gives the payload as far as it goes |
| NetTruncation.PacketTruncated | src/rtpkit/io/decap.py:102-146 | so does an IP packet cut short, and nothing inside its headers |
| NetTruncation.TruncationGivesPrefix | src/rtpkit/io/decap.py:37-154 | so does a whole frame of any link type cut at any byte |
| RtpExtension.Profiles | src/rtpkit/model/extension.py:32-38 | 0xBEDE is one-byte, 0x1000 to 0x100F are two-byte, and all other profiles unknown |
| RtpExtension.ParseOneByte | src/rtpkit/model/extension.py:96-121 | the one-byte loop computes the elements, zeros skipped, id 15 and overruns ending it |
| RtpExtension.ParseTwoByte | src/rtpkit/model/extension.py:172-199 | the two-byte loop computes the elements, zeros skipped, overruns ending it |
| RtpExtension.ParseExtensionElements | src/rtpkit/model/extension.py:73-93 | dispatch on the profile, unknown ones having no elements |
| RtpExtension.BuildOneByte | src/rtpkit/model/extension.py:146-156 | succeeds if and only if every element has id 1-14 and 1-16 bytes, with all of them encoded in order |
| RtpExtension.BuildTwoByte | src/rtpkit/model/extension.py:159-169 | succeeds if and only if every element has id 1-255 and at most 255 bytes, with all of them encoded in order |
| RtpExtension.BuildHeaderExtension | src/rtpkit/model/extension.py:124-143 | the extension of the encoded elements padded to a word, or the build error |
| RtpExtension.ElementsRoundTrip | src/rtpkit/model/extension.py:73-169 | elements read from the extension built of them are the elements, in both formats |
| RtpExtension.ElementsCanonical | src/rtpkit/model/extension.py:73-199 | elements read from any known extension can be built again if and only if none has id 0, then in no more words and with the same elements read back |
| RtpExtension.IdZeroIsReturned | src/rtpkit/model/extension.py:78-118 | a concrete body whose id-0 element with length bits is returned, contrary to the documentation and to section 4.2 of RFC 8285 |
| RtpExtensionReference.LayoutIsRead | src/rtpkit/model/extension.py:96-199 | elements between runs of zeros, up to the body's end, a reserved id, an overrun or an id without a length, are read as those elements, in both formats |
| RtpExtensionReference.LayoutOf | src/rtpkit/model/extension.py:96-199 | every body has such a layout |
| RtpExtensionReference.ElementsIff | src/rtpkit/model/extension.py:73-199 | so the parser returns es from a body if and only if the body is laid out as es, in both formats |
| RtpExtensionReference.AgreesWithRfc | src/rtpkit/model/extension.py:96-121 | a one-byte body is read as section 4.2 of RFC 8285 prescribes, stopping at an id 0 with length bits, if and only if its layout has no complete element with id 0 |
| RtpExtensionReference.AgreesWithDocumentation | src/rtpkit/model/extension.py:78-80 | it is read by the documented rule, every id 0 being padding, if and only if moreover an incomplete id 0 at its end has no element behind it |
| RtpExtensionReference.RebuiltIff | src/rtpkit/model/extension.py:73-169 | what was read can be built again if and only if the body holds no complete element with id 0 |
| RtpParser.ParseExtension | src/rtpkit/parser/rtp_parser.py:107-141 | the header extension where it is declared and whole; otherwise an error or, leniently, none |
| RtpParser.ParsePadding | src/rtpkit/parser/rtp_parser.py:143-167 | the padding count where it is declared and sensible; otherwise an error or, leniently, zero |
| RtpParser.Parse | src/rtpkit/parser/rtp_parser.py:60-184 | the branches compute the packet that the laws below are about |
| RtpParser.SizesAddUp | src/rtpkit/model/packet.py:56-68 | in both modes header size, payload and padding add up to the buffer |
| RtpParser.LenientAcceptsMore | src/rtpkit/parser/rtp_parser.py:35-60 | lenient parsing accepts every buffer of at least 12 bytes, and agrees with strict parsing where that accepts |
| RtpParser.LenientHeader | src/rtpkit/parser/rtp_parser.py:71-87 | lenient parsing reads the fixed header bit by bit, whatever version, flags and lengths say |
| RtpParser.LenientCsrcs | src/rtpkit/parser/rtp_parser.py:89-104 | lenient parsing keeps the declared CSRCs, or as many whole ones as are there |
| RtpParser.LenientExtension | src/rtpkit/parser/rtp_parser.py:107-141 | lenient parsing keeps a declared extension if and only if all of it is there |
| RtpParser.LenientPadding | src/rtpkit/parser/rtp_parser.py:143-184 | lenient parsing believes a padding count if and only if it is positive and leaves the header alone; all between header and padding is payload |
| RtpBuilder.Builder.constructor | src/rtpkit/builder/rtp_builder.py:36-47 | the defaults: version 2 and all else empty |
| RtpBuilder.Builder.WithVersion | src/rtpkit/builder/rtp_builder.py:49-51 | sets its field and leaves every other as it was |
| RtpBuilder.Builder.WithMarker | src/rtpkit/builder/rtp_builder.py:53-55 | sets its field and leaves every other as it was |
| RtpBuilder.Builder.WithPayloadType | src/rtpkit/builder/rtp_builder.py:57-59 | sets its field and leaves every other as it was |
| RtpBuilder.Builder.WithSequenceNumber | src/rtpkit/builder/rtp_builder.py:61-63 | sets its field and leaves every other as it was |
| RtpBuilder.Builder.WithTimestamp | src/rtpkit/builder/rtp_builder.py:65-67 | sets its field and leaves every other as it was |
| RtpBuilder.Builder.WithSsrc | src/rtpkit/builder/rtp_builder.py:69-71 | sets its field and leaves every other as it was |
| RtpBuilder.Builder.WithCsrc | src/rtpkit/builder/rtp_builder.py:73-75 | sets its field and leaves every other as it was |
| RtpBuilder.Builder.WithExtension | src/rtpkit/builder/rtp_builder.py:77-80 | sets its field and leaves every other as it was |
| RtpBuilder.Builder.WithPayload | src/rtpkit/builder/rtp_builder.py:90-92 | sets its field and leaves every other as it was |
| RtpBuilder.Builder.WithPadding | src/rtpkit/builder/rtp_builder.py:94-97 | sets its field and leaves every other as it was |
| RtpBuilder.Builder.WithExtensionElements | src/rtpkit/builder/rtp_builder.py:82-88 | sets the extension built of the elements, or raises and leaves the builder as it was |
| RtpBuilder.Builder.Validate | src/rtpkit/builder/rtp_builder.py:131-155 | accepts if and only if every field fits the wire format |
| RtpBuilder.Builder.Build | src/rtpkit/builder/rtp_builder.py:99-125 | the parts put together are the packet of the fields, or the build error |
| RtpBuilder.Builder.BuildPacket | src/rtpkit/builder/rtp_builder.py:127-129 | the strict parse of what was built |
| RtpRoundTrip.FixedHeaderRead | src/rtpkit/builder/rtp_builder.py:102-109 | every flag, count and number of a built header stands where section 5.1 of RFC 3550 puts it |
| RtpRoundTrip.BuildParseRoundTrip | src/rtpkit/builder/rtp_builder.py:99-125 | a built packet parses back to all its fields, leniently always and strictly if and only if its version is 2 |
| RtpRoundTrip.NestedRoundTrip | src/rtpkit/builder/rtp_builder.py:82-125 | elements put in through the builder come back from the packet built and strictly parsed, with every other field |
| RtpRoundTrip.ParseBuildInverse | src/rtpkit/parser/rtp_parser.py:60-184 | building from the fields of any strictly accepted packet gives its bytes back, padding filler zeroed |
| RtpRoundTrip.OnlyFillerChanges | src/rtpkit/parser/rtp_parser.py:60-184 | that buffer is as long, differs only in the filler, and parses to the same fields |
| RtpRoundTrip.LenientFieldsFit | src/rtpkit/builder/rtp_builder.py:131-155 | the fields of every leniently parsed packet are valid for the builder |
| RtpRoundTrip.EncodingRead | src/rtpkit/parser/rtp_parser.py:60-184 | the bytes of valid fields with any filler in their padding parse to those fields |
| RtpRoundTrip.AcceptedMeansEncoding | src/rtpkit/parser/rtp_parser.py:35-48 | the language of the strict parser: a buffer is accepted as a packet if and only if it encodes valid fields of version 2, with any filler, and these are the packet's |
| RtpRoundTrip.StrictErrors | src/rtpkit/parser/rtp_parser.py:67-161 | each of the four errors is raised over exactly the buffers that lack what it names |
| Detection.ClassificationIsDisjoint | src/rtpkit/detection/heuristics.py:18-36 | no buffer looks like both RTP and RTCP |
| Detection.RtpTest | src/rtpkit/detection/heuristics.py:21-27 | a buffer looks like RTP if and only if it is strictly accepted and its payload type is none of 72 to 76 |
| Detection.RtcpTest | src/rtpkit/detection/heuristics.py:30-36 | a buffer looks like RTCP if and only if it is strictly accepted and its first type is 200 or 201 |
| Detection.StepsAround | src/rtpkit/detection/flow.py:93-95 | two numbers are within the threshold if and only if some signed step of at most that size leads from one to the other modulo 2^16 |
| Detection.WrappedDelta | src/rtpkit/detection/flow.py:47-51 | the delta is congruent to the difference, in (-32768, 32768], and its size is the smaller of the two modular differences |
| Detection.RtpFlowClassifier.constructor | src/rtpkit/detection/flow.py:63-76 | a new classifier satisfies the invariant for the empty history |
| Detection.RtpFlowClassifier.Observe | src/rtpkit/detection/flow.py:78-97 | one payload extends the history and keeps every counter, flag and set equal to its function of the whole history |
| Detection.RtpFlowClassifier.Classify | src/rtpkit/detection/flow.py:99-114 | likely RTP if and only if enough packets were accepted, all of one SSRC, with two distinct sequence numbers and every adjacent pair within the threshold on the circle |
| Detection.ProgressIsDistinct | src/rtpkit/detection/flow.py:100 | more than one number was collected if and only if two packets differ in theirs |
| G711.LevelSteps | src/rtpkit/codec/g711.py:33-54 | the 128 magnitudes of either law start at 0 and at 8 and rise by steps that double with the segments |
| G711.LevelOrder | src/rtpkit/codec/g711.py:33-54 | a higher level has a larger magnitude |
| G711.LevelBounds | src/rtpkit/codec/g711.py:33-54 | magnitudes are 15-bit; only mu-law's lowest is zero |
| G711.UlawByLevel | src/rtpkit/codec/g711.py:33-40 | a mu-law code is the sign and complemented number of its level |
| G711.AlawByLevel | src/rtpkit/codec/g711.py:43-54 | an A-law code is the sign and number of its level, after flipping |
| G711.EvenBitsAreFlipped | src/rtpkit/codec/g711.py:44 | exactly bits 0, 2, 4 and 6 of the code are flipped |
| G711.AlawByBits | src/rtpkit/codec/g711.py:43-54 | so it is the sign and number of its level with these bits flipped, whichever byte has them so |
| G711.KnownSamples | src/rtpkit/codec/g711.py:33-54 | the samples of silence, of the ends of both ladders and of both mu-law zeros |
| G711.UlawCollisions | src/rtpkit/codec/g711.py:33-40 | two mu-law codes decode alike if and only if they are equal or the two zeros 0x7F and 0xFF |
| G711.AlawIsInjective | src/rtpkit/codec/g711.py:43-54 | two A-law codes decode alike if and only if they are equal |
| G711Encode.SortedCodes | src/rtpkit/codec/g711.py:58 | the codes in stable order of their values, each once |
| G711Encode.BisectLeft | src/rtpkit/codec/g711.py:63 | the first position whose value is not below the sample |
| G711Encode.BuildEncodeLut | src/rtpkit/codec/g711.py:57-73 | for every decode table, each of the 65536 entries decodes to a nearest value, the lower of two equally near; which of several codes for it is fixed too |
| G711Encode.EncodingIsUnique | src/rtpkit/codec/g711.py:57-73 | that specification leaves one code for each sample |
| G711Encode.EncodingIsMonotone | src/rtpkit/codec/g711.py:57-73 | a larger sample never encodes to a smaller value |
| G711Encode.ValueEncodesToFirst | src/rtpkit/codec/g711.py:57-73 | a value of the table encodes to the first code that has it |
| G711Encode.ZeroEncodesDown | src/rtpkit/codec/g711.py:68 | half-way between two levels the lower wins: A-law encodes 0 as -8, which is 0x55 |
| G711Encode.KnownDecodings | src/rtpkit/codec/g711.py:82-86 | samples are written signed and little-endian |
| G711Encode.KnownEncodings | src/rtpkit/codec/g711.py:89-94 | and read so; a half sample is refused |
| G711Encode.DecodeEncodeDecode | src/rtpkit/codec/g711.py:82-94 | for every table and byte string, decoding, encoding and decoding again is decoding |
| G711Encode.EncodeDecodeExact | src/rtpkit/codec/g711.py:82-94 | encoding undoes decoding on a string if and only if each of its codes is the first for its value |
| G711Encode.AlawRoundTrip | src/rtpkit/codec/g711.py:107-114 | for A-law, encoding undoes decoding on every string |
| G711Encode.UlawRoundTrip | src/rtpkit/codec/g711.py:97-104 | for mu-law, encoding undoes decoding if and only if the string has no 0xFF |
| Bytes.UnpackPackWords | src/rtpkit/builder/rtcp_builder.py:98-105 | big-endian words packed one after another are unpacked as they were, whatever follows |
| Bytes.PackUnpackWords | src/rtpkit/parser/rtcp_parser.py:157-163 | unpacked words are packed to the bytes they came from |
| RtcpModel.DecodedAt | src/rtpkit/parser/rtcp_parser.py:263 | a byte of a name stands for its ASCII character, or for the replacement character |
| RtcpModel.AsciiDecoded | src/rtpkit/parser/rtcp_parser.py:263 | decoding a name is lossless if and only if its bytes are ASCII |

## Left out

- Text forms of IP addresses: an address is its 4 or 16 packed bytes, so parsing and printing them, scope ids and the error for an unreadable address are not modelled.
- IEEE rounding of timestamps and jitter: timestamps, ticks and jitter are exact reals and integers.
- RTP timestamp wrap in the jitter: the code does not handle it, and the model follows the code.
- Zero-copy aliasing: a `memoryview` of the input is the bytes it shows.
- Host byte order: `array.byteswap` on big-endian hosts; samples are little-endian bytes throughout.
- Error messages, their details and logging: an exception is its class.
- Library calls: `sorted`, `bisect`, `round` and `struct` are written out as functions and methods of the model.
- Order of dictionary iteration in all_stats: its result is a map; the order of the SSRCs is modelled by SsrcsSeen.
- pcapng trailing lengths, checksums on receipt and IPv4 fragments: the code does not look at them, so nothing is claimed beyond that any bytes may stand there.
- `src/rtpkit/fuzz`, `src/rtpkit/model/payload_types.py`, `src/rtpkit/model/errors.py`, `src/rtpkit/io/capture.py`, package initialisers and the demo: tables, dispatch and random input, which would add only easy members.
- Fluent chaining of the builder's methods: each changes the builder, and returning it adds nothing.
- Reading and writing actual files.
