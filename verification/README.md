# netscope, modelled and proved

This project models the analysis core of netscope, a passive network analyser, and proves properties of it:

- **Frames to fields** (`Decoder`, `DecoderTheorems`, `HeaderRoundTrip`, `FrameRoundTrip`, `Checksum`): a bounds-checked
  cursor decodes a captured frame; the Internet checksum; built headers of every kind, and the frames the packet
  generator builds, and their way back.
- **Segments to a stream** (`Serial`, `Reassembly`, `ReassemblySafety`, `ReassemblyCoverage`): a reassembler turns TCP
  segments that arrive out of order, overlap, repeat and wrap into a capped in-order prefix.
- **Packets to conversations** (`SequenceTracking`, `SequenceExactness`, `TcpStates`, `RoundTrip`, `KarnRule`,
  `FlowModel`, `FlowKeys`, `FlowTable`, `FlowHistory`, `FlowConservation`): a bounded table of two-way flows, updated
  one packet at a time, with retransmission detection, connection state and round-trip times.
- **Bytes to names** (`Dissection`, `TlsHello`, `DnsName`, `LabelTheorems`): the TLS Hello reader, the DNS name decoder,
  and what decides a flow's label.
- **Packets per second** (`Throughput`): a ring of 90 one-second buckets.
- **The whole way** (`EndToEnd`): a ClientHello split over segments, through the table, the reassembler and the reader,
  to the server name shown for the flow.

Each object the original updates in place is a class whose methods are proved against a function on values; the loops of
the original are loops here. What the original promises is then proved about those functions, over every input and every
run. `MapSum` holds the sums over maps. A run of the table is a sequence of packets, expiries, clears and switches of
dissection; eviction may pick any flow that was seen least recently, since the original's choice among equals depends on
hashing. A run of a reassembler or of one direction is a sequence of segments at stream positions, numbered from an
arbitrary base modulo 2^32.

Sequence numbers are naturals below 2^32 with explicit wrap-around, times are integer microseconds, round-trip times are
reals, counters are unbounded naturals. `dafny verify dfyconfig.toml` checks everything.

Where a claim is false of the code, the code is modelled as it is and the exact condition is proved:

- Draining stops at the smallest raw number, so a wrap can stall it: every run within n bytes drains if and only if their
  numbers do not wrap or only the first comes before the wrap (`AlwaysDrainsIff`), and a given run has drained if and
  only if nothing pending holds the expected byte (`LongestRunIff`). Safety and completeness hold across the wrap
  (`PrefixIsTrue`, `RunComplete`), and a flow is named if and only if what was delivered yields the name
  (`NamedIffDelivered`).
- The buffer may refuse pieces even of a message that fits it: none is ever refused if and only if (n-1)(n+2)/2 bytes fit
  (`NeverRefusesIff`).
- A SYN's own payload loses its first byte (`SynPayloadDeliveredIffEmpty`).
- The retransmission counter counts new data as resent when it lies below the reach and meets no tracked hole; it is
  exact if and only if that never happens (`RetransmitsExactIff`), and its error is counted (`RetransmitsCounted`).
- The comment on round-trip times names Karn's algorithm (src/flow_table.cpp:292-298), but only the resend itself is
  left out; the original send stays timed. Karn's rule is kept if and only if no ACK meets a covered front entry that
  was resent before it (`KarnKeptIff`).
- The comment on compression pointers says they lead to an earlier name (src/dissect.cpp:320), but a pointer may lead
  anywhere in the message (`PointerLeadsAnywhere`), forward for one (`ForwardPointerFollowed`); what is accepted is
  exactly what is laid out through at most eight pointers (`DecodesIffLaidOut`).
- FIN counters survive a restart of the connection: one side alone can close it if and only if the other side ever sent
  a FIN (`StaleFinClosesIff`).
- A late packet can take the slot of a second still on show: the history is right if and only if no second on show was
  overwritten (`HistoryRightIff`), and a rate if and only if none of its seconds was (`RateExactIff`). Even without late
  packets, rates over 90 seconds miss the oldest one (`NinetySecondRateExactIff`).
- A corrupted IPv4 header whose right checksum was zero is not reported (`Ipv4ReadsBack`).
- The checksum of a buffer over 131074 bytes can overflow, and then disagrees with the generator's unless it overflowed a
  multiple of 65535 times and left something (`AgreesWithGeneratorIff`).

## Model

| member | source | states |
|---|---|---|
| Serial.SerialOrder | include/flow.hpp:19-23 | serial comparison is the order of stream positions for positions less than 2^31 apart, whatever the base, hence across the wrap (section 3.2 of RFC 1982) |
| Serial.SerialOrderLimit | include/flow.hpp:19-23 | beyond that window the comparison reads as the opposite |
| Reassembly.StreamReassembler.constructor | include/reassembly.hpp:20-64 | a new reassembler is valid, empty, and keeps the two caps it was given |
| Reassembly.StreamReassembler.Reset | src/reassembly.cpp:9-15 | reset forgets the anchor, the prefix and everything pending, and keeps the counters |
| Reassembly.StreamReassembler.AppendBytes | src/reassembly.cpp:17-23 | only what still fits the prefix cap is kept; a partial fit charges the rest as discarded, a full prefix charges nothing |
| Reassembly.StreamReassembler.DeliverBytes | src/reassembly.cpp:50-52 | delivered bytes advance the expected number modulo 2^32 |
| Reassembly.StreamReassembler.Feed | src/reassembly.cpp:25-74 | one push moves the whole state as `Push` says and returns exactly the bytes it delivered |
| Reassembly.StreamReassembler.Accept | src/reassembly.cpp:34-74 | already delivered bytes at the front are trimmed and counted as overlap, then the rest is placed |
| Reassembly.StreamReassembler.PlaceSegment | src/reassembly.cpp:49-73 | data at the expected number is delivered and the queue drained; data ahead is held |
| Reassembly.StreamReassembler.HoldSegment | src/reassembly.cpp:58-73 | refused when saturated or over the buffer cap; otherwise kept, and of two copies under one number the longer |
| Reassembly.StreamReassembler.DrainPending | src/reassembly.cpp:76-103 | the loop releases from the smallest raw number until that one is ahead, returns the bytes delivered and terminates |
| Reassembly.StreamReassembler.ReleaseSegment | src/reassembly.cpp:83-100 | a released segment is trimmed by what is already delivered and the remainder appended |
| Reassembly.DrainStep | src/reassembly.cpp:78-86 | draining looks only at the least raw number |
| Reassembly.PushBounded | src/reassembly.cpp:58-73 | the byte count is the total size of what is pending and never exceeds the buffer cap |
| ReassemblySafety.FirstPacketAnchors | src/reassembly.cpp:27-33 | a SYN anchors the stream behind itself; mid-stream the first segment anchors it |
| ReassemblySafety.PushExtends | src/reassembly.cpp:25-103 | no push ever rewrites the prefix; the expected number moves by what was delivered |
| ReassemblySafety.ByPosition | src/reassembly.cpp:38-56 | push told in stream positions instead of wrapping numbers, within 2^31 |
| ReassemblySafety.PrefixIsTrue | src/reassembly.cpp:17-103 | for any arrival order, overlaps, repeats and across the sequence wrap, the prefix is the first min(delivered, cap) bytes of the true stream |
| ReassemblySafety.Position | src/reassembly.cpp:27-53 | the expected number is the anchor plus what was delivered modulo 2^32, and the prefix length is min(delivered, cap) |
| ReassemblySafety.PrefixOnlyGrows | src/reassembly.cpp:17-103 | more segments only extend the prefix |
| ReassemblySafety.PushConserves | src/reassembly.cpp:25-103 | one push conserves bytes, and charges as discarded exactly what it refuses and what one delivery has past the cap when it fills the prefix |
| ReassemblySafety.EveryByteAccounted | src/reassembly.cpp:17-103 | bytes pushed = delivered + overlap + buffered + refused + shadowed at every moment; buffered is the pending total within its cap; the discarded counter is exactly the refusals plus the part of the delivery that filled the prefix which did not fit |
| ReassemblySafety.ShelvedAreCounted | src/reassembly.cpp:58-73 | the counter of buffered segments is how many were put aside under a new number |
| ReassemblySafety.SynPayloadDeliveredIffEmpty | src/reassembly.cpp:27-45 | a SYN's own payload is delivered whole exactly when it is empty: otherwise its first byte is lost |
| ReassemblyCoverage.RunComplete | src/reassembly.cpp:25-103 | for any run within 2^31, across the wrap too, a byte is delivered or pending if and only if some segment that was not refused carried it |
| ReassemblyCoverage.StaysWithin | src/reassembly.cpp:25-103 | nothing is delivered or pending beyond what was pushed, whatever is refused |
| ReassemblyCoverage.LongestRunIff | src/reassembly.cpp:25-103 | for any run within 2^31, wrapped or not, the delivered position is the longest initial run accepted if and only if nothing pending holds the expected byte |
| ReassemblyCoverage.DeliversLongestRun | src/reassembly.cpp:25-103 | where the numbers of the positions after the first ascend, the delivered position is exactly the longest initial run covered by what was not refused, and all that is pending lies strictly beyond it |
| ReassemblyCoverage.AlwaysDrainsIff | src/reassembly.cpp:76-86 | every run of segments within n bytes delivers all of the longest initial run accepted if and only if the numbers of those n bytes do not wrap, or only the first of them comes before the wrap |
| ReassemblyCoverage.StallsIff | src/reassembly.cpp:79-81 | the shape that stalls: two segments wait behind a gap, and when it closes something that arrived stays undelivered if and only if the numbers wrap between the two |
| ReassemblyCoverage.ArrivalOrderIrrelevant | src/reassembly.cpp:25-103 | two runs of which the same bytes are accepted end with the same prefix, however cut, ordered, overlapped and repeated |
| ReassemblyCoverage.PiecesNeverRefused | src/reassembly.cpp:58-72 | pieces of a message within the prefix cap and half the buffer cap, cut alike each time, are never refused, in any order, with any repeats and across the wrap |
| ReassemblyCoverage.FewBytesNeverRefused | src/reassembly.cpp:58-72 | pieces of a message within the prefix cap, cut and repeated in any way, are never refused while all that was pushed fits the buffer cap |
| ReassemblyCoverage.NeverRefusesIff | src/reassembly.cpp:58-72 | no run of pieces of n bytes within the prefix cap is ever refused if and only if (n-1)(n+2)/2 is at most the buffer cap |
| SequenceTheorems.JudgeByPosition | src/flow_table.cpp:231-289 | the verdict on a data segment read in stream positions: a resend exactly when its fingerprint is remembered or it lies below the reach outside every hole |
| SequenceTheorems.RunSound | src/flow_table.cpp:214-290 | holes stay non-empty, sorted, disjoint, below the reach and free of any byte seen; everything remembered was seen |
| SequenceTheorems.NoResendMissed | src/flow_table.cpp:231-289 | every repeat of a data segment of the run is judged a retransmission, also after the 64-entry window forgot it |
| SequenceTheorems.RetransmitsAtLeastRepeats | src/flow_table.cpp:214-290 | the counter is never below the repeats among the data segments |
| SequenceExactness.RetransmitsCounted | src/flow_table.cpp:214-290 | in every run of well-cut data the counter equals the repeats plus the new segments that, when they came, lay below the reach and met no tracked hole |
| SequenceExactness.RetransmitsExactIff | src/flow_table.cpp:238-273 | the counter equals data segments minus distinct data segments if and only if at each moment new data that is not beyond the reach overlaps a tracked hole |
| SequenceExactness.RetransmitsExact | src/flow_table.cpp:214-290 | orderly runs meet that condition: data touches what was seen, there is room for a hole, and control packets do not run ahead |
| SequenceExactness.OutOfOrderCounted | src/flow_table.cpp:238-283 | in every run of well-cut data the out-of-order counter is the data that came beyond the reach or landed in a tracked hole |
| SequenceExactness.MemoryIsBounded | src/flow_table.cpp:275-289 | the last 64 data segments are remembered and at most 16 holes; the reach is where the furthest packet ended |
| SequenceExactness.TailMisjudgedIffMiddleFill | src/flow_table.cpp:240-254 | a family of runs that fails it: the never-seen tail of a hole is judged a resend exactly when the late data left a gap in front of itself too |
| TcpStates.StateTellsHistory | src/flow_table.cpp:152-206 | what each connection state says about the whole history: Closing needs FINs from both sides, Closed a later ACK without FIN, a complete handshake a SYN/ACK and a later ACK without SYN; the FIN counters tell exactly who sent one |
| TcpStates.StateIff | src/flow_table.cpp:152-206 | the state after any history is the highest stage that the packets of its latest connection lead to one after the other (SYN/ACK, ACK, FIN, FIN of the other side, final ACK), and the handshake is complete exactly when they led through it; connections begin with the first packet and with each fresh attempt that finds all earlier ones over |
| TcpStates.HandshakeEstablishes | src/flow_table.cpp:152-206 | after any history that is empty or terminal, SYN, SYN/ACK and ACK establish a connection with a complete handshake, whatever quiet packets come in between |
| TcpStates.FinsClose | src/flow_table.cpp:152-206 | from there the FINs of both sides in either order and an ACK without FIN close it |
| TcpStates.OneSidedFinNeverCloses | src/flow_table.cpp:187-193 | one side's repeated FINs never reach Closing or Closed |
| TcpStates.TerminalExit | src/flow_table.cpp:197-204 | a terminal state is left exactly by a SYN without ACK |
| TcpStates.ResetIffStands | src/flow_table.cpp:152-206 | the state is Reset if and only if some RST was not followed by a fresh attempt |
| TcpStates.ReopenedState | src/flow_table.cpp:197-204 | after any history in a terminal state, a restart closed by one side alone ends in Closing if the other side ever sent a FIN, in FinWait otherwise |
| TcpStates.StaleFinClosesIff | src/flow_table.cpp:187-204 | FIN counters outlive a restart: after any history, some continuation without a FIN of the one side reaches Closing if and only if that side sent a FIN before |
| RoundTrip.RttStats.Add | src/flow_table.cpp:109-121 | one sample: implausible ones change nothing, others update minimum, maximum, last and the 7/8-1/8 average |
| RoundTripTheorems.StatisticsOfAccepted | src/flow_table.cpp:109-121 | over any samples the statistics are those of the accepted ones: count, least, greatest, last, and 0 <= min <= srtt <= max <= 60000 |
| RoundTripTheorems.SrttClosedForm | src/flow_table.cpp:117-118 | srtt is the sum of the samples weighted with powers of 7/8 (section 2.3 of RFC 6298) |
| RoundTripTheorems.SrttConverges | src/flow_table.cpp:117-118 | for samples within [c-d, c+d] the distance from c is at most d plus (7/8)^n of the starting distance |
| RoundTripTheorems.QueueIsGenuine | src/flow_table.cpp:315-319 | at most 256 sends are awaited, each the trace of a data segment not judged a resend |
| RoundTripTheorems.OldestGivesWay | src/flow_table.cpp:315-319 | a new data segment joins the queue, and the oldest gives way to the 257th and to no other; anything else leaves the queue |
| RoundTripTheorems.AckTimesGenuineSend | src/flow_table.cpp:321-334 | an ACK removes a covered block from the front up to the first uncovered entry and takes at most one delay, the microseconds since a genuine send it covers |
| RoundTripTheorems.AckTakesDelay | src/flow_table.cpp:321-334 | an ACK that covers the front entry d microseconds after its send adds one sample if and only if 0 <= d <= 60000000, the last in milliseconds being d/1000, and otherwise leaves no trace; an ACK that does not cover it changes nothing |
| RoundTripTheorems.AckRetiresExactly | src/flow_table.cpp:321-334 | from an in-order sender no acknowledged entry survives and no other is lost, across the wrap too |
| KarnRule.ResendsInvisible | src/flow_table.cpp:292-335 | over any run a sender's queue and estimate are those of the run with every resend taken out |
| KarnRule.EstimateIsItsSamples | src/flow_table.cpp:292-335 | over any run the estimate is the smoothing of the run's samples, each the difference in time, in milliseconds, between a send of new data and a later ACK that covers it |
| KarnRule.AmbiguousIff | src/flow_table.cpp:292-335 | after any run an ACK takes a sample of a segment that was resent between its send and that ACK if and only if the front entry is covered and was resent since |
| KarnRule.KarnKeptIff | src/flow_table.cpp:292-335 | a run takes no sample of a resent segment if and only if no ACK meets a covered front entry whose segment was resent before it (section 3 of RFC 6298) |
| KarnRule.ResendLeavesOriginalTimed | src/flow_table.cpp:292-335 | after any run, resending the segment at the front of the queue and acknowledging it takes such a sample, the time since the original send |
| Dissection.Sanitize | src/dissect.cpp:123-137 | character for character: a byte from blank to tilde is kept, any other is a dot, up to the limit, and two dots follow exactly when the input is longer |
| Dissection.PrintableShown | src/dissect.cpp:123-137 | printable text within the limit is shown as it is |
| Dissection.ByteReader.ReadU8 | src/dissect.cpp:26-56 | one byte, or failure without moving |
| Dissection.ByteReader.ReadU16 | src/dissect.cpp:26-56 | a big-endian word, or failure without moving |
| Dissection.ByteReader.Skip | src/dissect.cpp:26-56 | moves exactly that far, or fails without moving |
| Dissection.ByteReader.Read | src/dissect.cpp:26-56 | exactly those bytes, or failure without moving |
| TlsHello.ParseHeader | src/dissect.cpp:198-240 | what the record and hello header say, for any bytes |
| TlsHello.ParseServerName | src/dissect.cpp:258-267 | the first name of a server_name extension, empty unless it is a whole host name |
| TlsHello.ParseVersions | src/dissect.cpp:268-280 | the result is the value given or an offered version up to TLS 1.3, and no lower than either |
| TlsHello.MaxIsHighest | src/dissect.cpp:268-280 | the same of any list and any starting value |
| TlsHello.ParseExtensions | src/dissect.cpp:248-282 | the loop over the extensions notes exactly the whole ones within the declared and captured length, in order |
| TlsHello.DissectTls | src/dissect.cpp:198-293 | the in-place parser computes `Dissected` for any bytes |
| TlsTheorems.ExtensionsStable | src/dissect.cpp:250-282 | a prefix of an extension block yields a prefix of its extensions |
| TlsTheorems.SniStable | src/dissect.cpp:198-293 | for any bytes a server name read from a prefix is the one the full bytes yield |
| TlsTheorems.ConclusiveIffSni | src/dissect.cpp:284-291 | a client's bytes are conclusive exactly when they yield a server name, and the summary then ends in it, sanitised |
| TlsTheorems.HeaderInverts | tools/make_test_pcap.py:92-108 | the header of a built ClientHello is read back, for any session id, ciphers and compression list (section 4.1.2 of RFC 8446) |
| TlsTheorems.ExtensionsInvert | src/dissect.cpp:250-257 | an encoded extension list is read back exactly (section 4.2 of RFC 8446) |
| TlsTheorems.DissectInvertsEncode | src/dissect.cpp:198-293 | dissecting a built ClientHello reports what its extensions say |
| TlsTheorems.ClientHelloReads | src/dissect.cpp:284-291 | a built ClientHello reads as the text of its version, the highest announced or the legacy one, with its name, or as an open client-hello without one |
| TlsTheorems.ServerHelloReads | src/dissect.cpp:232-291 | a built ServerHello reads as its version's text and server-hello, conclusively |
| TlsTheorems.OtherHandshakeReads | src/dissect.cpp:209-216 | any other handshake record reads as the record's version, tentatively |
| TlsTheorems.TlsNeedsHandshake | src/dissect.cpp:204-207 | only a handshake record of TLS or SSL 3 is taken for TLS |
| TlsTheorems.CutHelloReads | src/dissect.cpp:198-247 | a ClientHello cut short is nothing until all before its extensions is there, and then a version until their length is |
| TlsTheorems.SniRecovered | src/dissect.cpp:258-267 | with a well-formed server_name extension (section 3 of RFC 6066) the name it was built with is recovered |
| TlsTheorems.ServerNameReads | src/dissect.cpp:258-267 | a server_name extension yields its first entry if that is a whole host name, and nothing otherwise |
| TlsTheorems.SampleHelloReads | tools/make_test_pcap.py:92-108 | the generator's own ClientHello is shown as TLS1.3 with its name, character for character if that is printable and at most 48 bytes |
| DnsName.DecodeDnsName | src/dissect.cpp:308-343 | the loop computes `Decoded` for any message and offset, in bounds and terminating by jumps left, then bytes left |
| DnsName.FollowPointer | src/dissect.cpp:319-328 | a pointer is followed if it is whole, within the message and one of the first eight |
| DnsName.TakeLabel | src/dissect.cpp:336-340 | a label is taken if it is whole and the dotted name stays within 253 bytes |
| DnsTheorems.DecodesIffLaidOut | src/dissect.cpp:308-343 | a text is returned if and only if labels with that dotted form are laid out from the offset through at most eight pointers, with at most 253 bytes (section 4.1.4 of RFC 1035) |
| DnsTheorems.ConsumesOwnBytes | src/dissect.cpp:323-332 | exactly the bytes up to the terminator or the first pointer are consumed |
| DnsTheorems.LaidOutIsRead | src/dissect.cpp:308-343 | any layout of labels and pointers is read back as its labels |
| DnsTheorems.ReadIsLaidOut | src/dissect.cpp:308-343 | whatever is read was laid out so |
| DnsTheorems.PointerLeadsAnywhere | src/dissect.cpp:319-328 | a pointer to a name laid out anywhere in the message, before it or behind it, is read as that name |
| DnsTheorems.ForwardPointerFollowed | src/dissect.cpp:319-328 | a pointer that leads forward, over any bytes, to the end of the message is read |
| DnsTheorems.SelfPointerRefused | src/dissect.cpp:319-328 | a pointer to itself is refused in any message, by the limit on jumps |
| FlowKeys.SameKeyIff | src/flow_table.cpp:53-75 | two packets share a flow exactly when they have the same protocol and the same two endpoints, either way round; ports count for TCP and UDP only |
| FlowKeys.SameDirectionIff | src/flow_table.cpp:60-73 | within a flow two packets have the same direction exactly when they come from the same endpoint |
| FlowKeys.KeyNamesEndpoints | src/flow_table.cpp:53-75 | a key names the packet's two endpoints, the lesser first (IPv4 before IPv6, then by bytes, then by port), and a packet goes forward when it comes from that one |
| FlowKeys.AddressTotal | include/protocol.hpp:155-163 | the address order is total and strict |
| FlowKeys.FirstDifference | include/protocol.hpp:155-163 | addresses are compared at their first differing byte |
| FlowTables.DirectionStats.CountPacket | src/flow_table.cpp:408-421 | the counters of a direction after a packet |
| FlowTables.DirectionStats.FillKnownHole | src/flow_table.cpp:238-254 | the first overlapping hole is removed or cut, and only it |
| FlowTables.DirectionStats.AwaitAck | src/flow_table.cpp:315-319 | a new data segment joins the queue, which drops its oldest entry over 256; nothing else of the direction changes |
| FlowTables.DirectionStats.TakeAck | src/flow_table.cpp:321-334 | the loop retires the covered front and takes one sample; nothing else of the direction changes |
| FlowTables.Flow.constructor | src/flow_table.cpp:398-402 | a new flow is empty and owns its own objects |
| FlowTables.Flow.AdvanceTcpState | src/flow_table.cpp:152-206 | the in-place transition is `TcpStates.Advance` on the flow's FIN counters |
| FlowTables.LooksLikeHttp | src/dissect.cpp:144-154 | the loop over the method names finds a match exactly when there is one |
| FlowTables.DissectTcpStream | src/dissect.cpp:378-402 | the order of attempts by port, and the first that answers |
| FlowTables.FlowTable.constructor | include/flow.hpp:146-147 | an empty table with dissection on |
| FlowTables.FlowTable.TrackSequence | src/flow_table.cpp:214-290 | a direction's tracker and the table's three segment totals after a segment; the answer says whether it was judged a resend |
| FlowTables.FlowTable.TrackPayload | src/flow_table.cpp:231-289 | the same for a segment with data |
| FlowTables.FlowTable.TrackRtt | src/flow_table.cpp:299-335 | handshake timer, sender queue, peer queue and sample total after a segment |
| FlowTables.FlowTable.TimeHandshake | src/flow_table.cpp:304-313 | the SYN to SYN/ACK delay is measured once |
| FlowTables.FlowTable.ReassembleAndDissect | src/flow_table.cpp:338-378 | label, stream, byte total and protocol counts after inspecting a packet; the other direction's stream stays |
| FlowTables.FlowTable.FeedStream | src/flow_table.cpp:357-359 | the direction's reassembler, created on first use, takes the payload |
| FlowTables.FlowTable.Relabel | src/flow_table.cpp:361-372 | a first or more definite reading replaces the label; only a first one is counted |
| FlowTables.FlowTable.FollowSegment | src/flow_table.cpp:412-426 | the TCP part of an update on the whole flow and the totals |
| FlowTables.FlowTable.UpdateOne | src/flow_table.cpp:404-430 | one packet's whole effect on its flow and on the totals |
| FlowTables.FlowTable.Oldest | src/flow_table.cpp:389-393 | the loop finds a flow no other was seen before |
| FlowTables.FlowTable.EvictOldest | src/flow_table.cpp:387-395 | exactly that flow is dropped |
| FlowTables.FlowTable.CreateFlow | src/flow_table.cpp:396-402 | a new flow with the next identifier; the others stay |
| FlowTables.FlowTable.Update | src/flow_table.cpp:380-430 | one packet through the table: ignored, or an eviction only when a new flow meets a full table, then creation and update of exactly its own flow |
| FlowTables.FlowTable.Expire | src/flow_table.cpp:432-446 | exactly the flows not idle too long survive, unchanged, and the number dropped is returned |
| FlowTables.FlowTable.Clear | src/flow_table.cpp:512-515 | flows and protocol counts go, the running totals stay |
| FlowTables.FlowTable.SetDissectionEnabled | include/flow.hpp:148-150 | switches inspection and nothing else |
| FlowTables.UpdateByParts | src/flow_table.cpp:404-430 | an update splits into what transport does to counters and trackers and what inspection does to label and stream |
| FlowTables.Sift | src/flow_table.cpp:434-443 | one turn of the expiry loop decides exactly one flow |
| FlowHistory.StepOnFlow | src/flow_table.cpp:380-446 | a step of the table does nothing to a surviving flow except its own packet |
| FlowHistory.HeardIff | src/flow_table.cpp:380-386 | a packet joins the log of its flow exactly when it is IPv4 or IPv6 and was decoded without error; any other leaves the table as it is |
| FlowHistory.FlowIsItsLog | src/flow_table.cpp:380-430 | at every reachable state each live flow's counters, last window and hop limit, connection state, tracker, round-trip queue and handshake timer equal a recount of its conversation's accepted packets since its creation |
| FlowHistory.LiveRetransmits | src/flow_table.cpp:214-290 | a live flow's retransmission counter is the repeats among its own packets plus the new segments misjudged; it is the repeats alone if and only if new data of its log always lands in a tracked hole or beyond the reach |
| FlowHistory.LiveOutOfOrder | src/flow_table.cpp:231-283 | a live flow's out-of-order counter is its data that came beyond the reach or landed in a tracked hole; it remembers at most 64 segments and 16 holes |
| FlowHistory.RepeatsAreResends | src/flow_table.cpp:231-273 | in any log of well-cut data a segment sent again is judged a resend by the tracker that meets it |
| FlowHistory.LiveStateIsEarned | src/flow_table.cpp:152-206 | Closed, a complete handshake and Reset on a live flow are borne out by its own packets |
| FlowHistory.LiveStateIff | src/flow_table.cpp:152-206 | each state and the handshake flag of a live flow hold exactly when its own packets lead there |
| FlowHistory.LiveQueueIsGenuine | src/flow_table.cpp:315-319 | what a live flow awaits are at most 256 data segments of its own log, none of them judged a resend by the flow's own tracker when it came |
| FlowHistory.LiveEstimate | src/flow_table.cpp:292-335 | the round-trip estimate of a live flow is the smoothing of delays of its own log, each from a data segment not judged a resend to a later ACK of the peer that covers it |
| FlowHistory.LiveHandshakeIsMeasured | src/flow_table.cpp:304-313 | a handshake time shown for a live flow is the delay from a SYN of its log to a later SYN/ACK with no other SYN between; if times do not run backwards one is shown exactly when some SYN/ACK has a SYN before it, and it is that of the first |
| FlowHistory.ExpiryIff | src/flow_table.cpp:432-446 | an expiry keeps a live flow, unchanged, if and only if the last packet of its own log is at most idleSec * 1000000 microseconds old, and at most 5000000 if the log ended closed or has a standing reset; it brings in no other |
| FlowConservation.TotalsConserved | src/flow_table.cpp:256-279 | through update, eviction, expiry and clear, the table-wide retransmission and reordering totals are the sums over live and retired flows |
| FlowConservation.EverySegmentJudgedOnce | src/flow_table.cpp:231-283 | data segments counted are those accepted in the run, and are in order, out of order or retransmitted, each exactly one |
| FlowConservation.SamplesConserved | src/flow_table.cpp:309-335 | the sample total is what live and retired flows accepted, plus the handshakes measured and the delays rejected as implausible |
| FlowConservation.TableStaysBounded | src/flow_table.cpp:387-402 | size never exceeds the limit, keys match, identifiers are distinct and at most the last one given |
| FlowConservation.EvictsLeastRecent | src/flow_table.cpp:387-395 | a packet removes at most one flow, only from a full table, and one with the least last-seen time |
| FlowConservation.EvictedIsStalest | src/flow_table.cpp:387-395 | what leaves for a packet leaves a full table to a new conversation, alone, and no live flow's log ended before its own |
| FlowConservation.NamedFlowsCountedOnce | src/flow_table.cpp:342-372 | the per-protocol counts add up to the live and retired flows ever named since the last clear |
| FlowConservation.ProtocolsCountFirstNames | src/flow_table.cpp:342-372 | the count of each protocol is the number of flows, live or gone since the last clear, whose first name it was |
| EndToEnd.FlowIsReplay | src/flow_table.cpp:380-430 | while dissection stays on, a live flow is a new one fed its log, label and streams included |
| EndToEnd.FedPrefix | src/reassembly.cpp:25-103 | what a flow's reassembler delivered is its message up to there, across the wrap and whatever was refused |
| EndToEnd.DeliveryConcludes | src/flow_table.cpp:361-377 | a delivery concludes the flow exactly when the prefix now yields the name |
| EndToEnd.NamedIffDelivered | src/flow_table.cpp:338-378 | while dissection is on, a live flow that carries a ClientHello is conclusively named if and only if what its reassembler delivered yields the name: any cut, order and repeats, across the wrap, refusals included |
| EndToEnd.ConclusionOutlives | src/flow_table.cpp:338-341 | in any run a flow's conclusive label never changes while the flow lives, whatever either side sends, whatever other flows do, and when dissection is switched off |
| EndToEnd.ServerNameShown | src/flow_table.cpp:338-378 | in any run of the table a live flow that at some moment had enough of a ClientHello delivered is conclusively TLS and its summary ends in the sanitised server name, from then on and whatever happens later |
| EndToEnd.ArrivedNameShown | src/flow_table.cpp:338-378 | the same when enough to yield the name has arrived unrefused and the hello's numbers ascend |
| EndToEnd.ClientHelloNamesFlow | src/flow_table.cpp:338-378 | the same for a built ClientHello that arrived whole, in any order and with any repeats, always cut alike, cut in any way within the buffer cap, or short: the name shown is the one it was built with, character for character if printable and at most 48 bytes, and refusal is ruled out rather than assumed |
| EndToEnd.SameCutsUnrefused | src/reassembly.cpp:58-72 | a hello cut alike each time is never refused by the default caps, however often it is sent |
| EndToEnd.FewBytesUnrefused | src/reassembly.cpp:58-72 | nor is one cut and repeated in any way, while its pieces add up to at most the buffer cap |
| EndToEnd.ShortUnrefused | src/reassembly.cpp:58-72 | a message up to 255 bytes, and by `ShortFits` none longer, is never refused a piece by the default caps |
| LabelTheorems.StreamReading | src/dissect.cpp:378-402 | which dissector answers: TLS, HTTP and SSH by how the stream opens, whatever the ports, and otherwise DNS to port 53 behind a whole length-prefixed message; the order of attempts makes no difference |
| LabelTheorems.IgnoredChangesNothing | src/flow_table.cpp:340-355 | with dissection off, under a conclusive label, for other protocols and for segments without data or SYN, nothing is looked at |
| LabelTheorems.DatagramsRead | src/flow_table.cpp:342-351 | each datagram with payload is read alone, its reading replaces the label, and the first is counted |
| LabelTheorems.SegmentsRead | src/flow_table.cpp:357-377 | a segment is pushed, the prefix is read again if anything was delivered, the first reading and then a conclusive one name the flow, and the stream is let go when the label is conclusive or the prefix has 8192 bytes |
| LabelTheorems.ReassembledConserved | src/flow_table.cpp:358-359 | the table-wide byte total is what the reassemblers delivered, through eviction, expiry, clearing and release |
| LabelTheorems.LiveStreamsStaySmall | include/reassembly.hpp:8-11 | a live flow holds less than 8192 bytes of prefix and at most 32768 bytes of pending data for each direction, however long it lives |
| Throughput.Statistics.constructor | src/stats.cpp:12-12 | an empty ring |
| Throughput.Statistics.BucketFor | src/stats.cpp:18-26 | the second's slot is taken over, emptied if another second held it; the newest second is kept |
| Throughput.Statistics.Add | src/stats.cpp:38-40 | a packet is added to its second's bucket and to no other |
| Throughput.Statistics.RecentBps | src/stats.cpp:118-129 | the loop adds up the completed seconds' buckets still in the ring |
| Throughput.Statistics.RecentPps | src/stats.cpp:131-141 | the same for packets |
| Throughput.Statistics.ThroughputHistory | src/stats.cpp:143-153 | the loop lists what the ring shows for the last 90 seconds, oldest first |
| ThroughputTheorems.FedFaithful | src/stats.cpp:18-26 | while no packet is 90 seconds late, the ring shows the full history's sums for every second of the window |
| ThroughputTheorems.ShownIff | src/stats.cpp:18-26 | for any log, late packets and all, the ring shows no more of a second than was captured, and exactly that unless a packet of another second took its slot afterwards |
| ThroughputTheorems.HistoryIsTrue | src/stats.cpp:143-153 | the history equals per-second sums over the whole log |
| ThroughputTheorems.HistoryRightIff | src/stats.cpp:143-153 | for any log the history equals per-second sums if and only if no second on show was overwritten by a later packet of another |
| ThroughputTheorems.HistoryRightIffOnTime | src/stats.cpp:18-26 | for one packet after a log on time, the history is still right if and only if the packet was on time or the second whose slot it takes was empty |
| ThroughputTheorems.RateExactIff | src/stats.cpp:118-141 | for any log and any span either rate, of bits or of packets, is the exact average over the completed seconds if and only if none of them was overwritten |
| ThroughputTheorems.RecentRateIsExact | src/stats.cpp:118-141 | for a log on time and 1 to 89 seconds both rates are exact averages over the completed seconds |
| ThroughputTheorems.NinetySecondRateExactIff | src/stats.cpp:118-141 | for a log on time and 90 or more, the oldest second is always missed: either rate is exact if and only if nothing it counts was captured in that second |
| Checksum.ComputeInternetChecksum | src/parser.cpp:66-76 | the 32-bit loops compute the complement of the folded word sum modulo 2^32, for any length, and terminate |
| Checksum.ComputeGeneratorChecksum | tools/make_test_pcap.py:29-37 | the unbounded loops compute the complement of the folded word sum, padding included |
| Checksum.Fold | src/parser.cpp:74-74 | end-around carry terminates below 2^16 |
| ChecksumTheorems.FoldedIsRemainder | src/parser.cpp:74-74 | folding is reduction modulo 65535 with a positive multiple kept as 65535 |
| ChecksumTheorems.NeverOverflows | src/parser.cpp:66-73 | up to 131074 bytes the 32-bit sum never overflows |
| ChecksumTheorems.LongerOverflows | src/parser.cpp:66-73 | one byte more can overflow it |
| ChecksumTheorems.VerifiesIff | src/parser.cpp:66-76 | a buffer verifies if and only if its word sum is a positive multiple of 65535 (section 1 of RFC 1071) |
| ChecksumTheorems.PublishedExample | src/parser.cpp:66-76 | the worked example of section 3 of RFC 1071 |
| ChecksumTheorems.AgreesWithGeneratorIff | tools/make_test_pcap.py:29-37 | for any buffer, analyser and generator agree if and only if the sum did not overflow 32 bits, or overflowed a multiple of 65535 times and left something |
| ChecksumTheorems.FillingVerifies | tools/make_test_pcap.py:54-60 | filling a zeroed field with the checksum makes the buffer verify |
| ChecksumTheorems.AllOnesForZeroVerifies | tools/make_test_pcap.py:76-82 | sending all ones for a computed zero verifies too |
| ChecksumTheorems.ChangeUnnoticedIff | src/parser.cpp:66-76 | a changed word goes unnoticed if and only if it turned 0000 into FFFF, or FFFF into 0000 with other words left |
| Decoder.Cursor.Take | src/parser.cpp:121-133 | hands out exactly the next bytes if that many are left, nothing otherwise; position plus remainder stays the capture length |
| Decoder.Cursor.Skip | src/parser.cpp:132-132 | moves exactly that far or not at all |
| Decoder.ResolveIpv6Next | src/parser.cpp:135-165 | the loop walks the extension headers as `Resolve` says |
| Decoder.DecodeTcp | src/parser.cpp:169-188 | the TCP header's fields and the payload behind its options |
| Decoder.DecodeUdp | src/parser.cpp:189-201 | the UDP header's ports and the shorter of declared and captured payload |
| Decoder.DecodeIpv4 | src/parser.cpp:227-260 | the IPv4 header, its checksum, and what is behind its options |
| Decoder.DecodeIpv6 | src/parser.cpp:261-281 | the IPv6 header and what is behind its chain |
| Decoder.UnwrapTags | src/parser.cpp:314-322 | up to two VLAN tags are unwrapped |
| Decoder.DecodePacket | src/parser.cpp:290-361 | a frame's fields by link type, link-layer addresses and failures included, for any bytes and either byte order of the host |
| DecoderTheorems.PayloadStaysInside | src/parser.cpp:290-361 | for any bytes and link type the payload handed out is a run of the captured bytes, and there is none when the frame was cut short or given up |
| DecoderTheorems.ChainResolves | src/parser.cpp:135-165 | a chain of fewer headers than steps allowed resolves to its upper protocol and to all that follows it; a longer one is given up |
| DecoderTheorems.SevenHeadersResolve | src/parser.cpp:135-165 | the true upper protocol is found if and only if there are at most seven extension headers (section 4 of RFC 8200) |
| FrameRoundTrip.Ipv4ReadsBack | tools/make_test_pcap.py:52-61 | a built IPv4 header decodes to its fields, and its checksum is reported bad exactly when it was corrupted and the right one was not zero |
| FrameRoundTrip.TcpFrameReadsBack | tools/make_test_pcap.py:48-73 | decoding a built Ethernet/IPv4/TCP frame returns the fields it was built from, link-layer addresses included |
| FrameRoundTrip.UdpFrameReadsBack | tools/make_test_pcap.py:76-82 | the same for UDP |
| FrameRoundTrip.GeneratedSegmentIsTracked | src/flow_table.cpp:380-382 | the flow table accepts a built TCP frame and is given exactly the segment that was sent |
| FrameRoundTrip.FlagsReadBack | tools/make_test_pcap.py:111-112 | each flag bit of the generator is the flag the table sees |
| FrameRoundTrip.AnswerSharesFlow | src/flow_table.cpp:53-75 | a built frame and its answer share one flow, in opposite directions unless an endpoint talks to itself |
| HeaderRoundTrip.SegmentReadsBack | src/parser.cpp:169-322 | a TCP segment with any options in an IPv4 packet with any options, tagged or not, decodes to its fields and to exactly the payload behind the options |
| HeaderRoundTrip.SegmentOverIpv6ReadsBack | src/parser.cpp:169-322 | the same over IPv6 behind up to seven extension headers |
| HeaderRoundTrip.TcpHeaderReads | src/parser.cpp:169-188 | a TCP header with any options is read back, and the payload is what stands behind them (section 3.1 of RFC 9293) |
| HeaderRoundTrip.CutTcpReads | src/parser.cpp:169-188 | cut short it tells its fields if they are there, and no payload |
| HeaderRoundTrip.ShortOffsetRefused | src/parser.cpp:182-182 | a data offset below five words is refused |
| HeaderRoundTrip.UdpHeaderReads | src/parser.cpp:189-201 | a UDP payload ends where the datagram or the capture does |
| HeaderRoundTrip.IcmpHeaderReads | src/parser.cpp:202-214 | ICMP type, code and what is behind the checksum |
| HeaderRoundTrip.TransportByNumber | src/parser.cpp:166-222 | protocols 6, 17, 1 and 58 choose the header; any other is payload |
| HeaderRoundTrip.Ipv4HeaderReads | src/parser.cpp:227-260 | an IPv4 header with any options, flags and fragment offset is read back; only a first fragment has a transport header (section 3.1 of RFC 791) |
| HeaderRoundTrip.CutIpv4Reads | src/parser.cpp:227-254 | a header cut short tells its fields once the fixed part is there |
| HeaderRoundTrip.Ipv4Refused | src/parser.cpp:230-232 | other versions and headers below five words are refused |
| HeaderRoundTrip.Ipv6HeaderReads | src/parser.cpp:261-281 | an IPv6 header with up to seven extension headers is read back; a later fragment has no transport header (section 4 of RFC 8200) |
| HeaderRoundTrip.ExtensionNumbers | src/parser.cpp:135-165 | the four numbers taken for extension headers |
| HeaderRoundTrip.NetworkByEthertype | src/parser.cpp:220-287 | the ethertypes of IPv4, IPv6 and ARP choose the header; any other is unsupported |
| HeaderRoundTrip.EthernetReads | src/parser.cpp:305-325 | addresses, up to two tags of either kind with the innermost identifier, and the packet by its ethertype; a third tag is unsupported |
| HeaderRoundTrip.OtherLinksRead | src/parser.cpp:326-354 | the ethertype's place in the cooked headers, the loopback family and the raw version nibble |
| HeaderRoundTrip.ShortFrames | src/parser.cpp:296-357 | frames shorter than their link header are refused |

## Left out

- EndToEnd.ServerNameShown: assumes that up to the moment in question no other payload travels in the flow, that the hello is at most 8192 bytes and that dissection is not switched off; what comes later is arbitrary.
- EndToEnd.ClientHelloNamesFlow: rules refusal out for pieces that are cut alike each time, that add up to at most the buffer cap, or whose message is at most 255 bytes; for longer messages `ReassemblyCoverage.NeverRefusesIff` shows that some run is refused. It assumes that the hello's numbers ascend after the first, because by `ReassemblyCoverage.AlwaysDrainsIff` some run stalls otherwise.
- ReassemblyCoverage.DeliversLongestRun: assumes that the numbers ascend after the first; `ReassemblyCoverage.AlwaysDrainsIff` shows that this is the exact condition on the initial number and the length.
- ReassemblyCoverage.AlwaysDrainsIff: is about caps that hold a byte of prefix and two bytes of buffer; with less, two segments never wait together.
- SequenceExactness.RetransmitsExact: assumes an orderly run; `SequenceExactness.RetransmitsExactIff` is the exact condition.
- SequenceExactness.TailMisjudgedIffMiddleFill: is one family of runs with a single hole; `SequenceExactness.RetransmitsExactIff` speaks of all runs.
- ReassemblyCoverage.StallsIff: is one family of runs; `ReassemblyCoverage.LongestRunIff` and `ReassemblyCoverage.AlwaysDrainsIff` speak of all runs.
- SequenceTheorems.NoResendMissed: like the exact count, is about data whose segments are either the same or disjoint, within 2^31; for overlapping cuts "the same segment again" has no single meaning.
- FlowHistory.FlowIsItsLog: does not speak about the application label and the streams, which depend on when dissection was on; `EndToEnd.FlowIsReplay` covers them for runs that leave it on.
- FlowConservation.NamedFlowsCountedOnce: assumes that the dissectors that are parameters name a protocol when they answer.
- FlowConservation.ProtocolsCountFirstNames: assumes the same.
- The HTTP, SSH, DNS message, DHCP, NTP and QUIC dissectors are functions given as parameters; only their place in the order of attempts, the HTTP and SSH magic bytes and the DNS length prefix are modelled. They would add only matching of fixed bytes.
- FlowTables.DissectTcpStream: the answers of the HTTP, SSH and DNS dissectors are parameters, as above; the order of attempts and the port and magic-byte tests are modelled.
- FlowTables.FlowTable.constructor: requires room for one flow, because with a limit of zero the original erases from an empty table (src/flow_table.cpp:387-395), whose effect C++ leaves undefined.
- 64-bit counters do not overflow here; floating-point rounding is not modelled, and times are exact.
- `FlowKeyHash`, `top`, `app_protocols`, `mean_rtt_ms`, `active_tcp`, `best_rtt_ms`, `label` and the protocol, port and talker tables of the statistics: hashing, sorting and display.
- `peak_bucket_bytes`, the protocol counters of `Statistics::add`, and the seconds before the epoch in the throughput history.
- The `analyzer.hpp` lock and threads: each packet is one step.
- Capture through libpcap or raw sockets, the pcap writer, the dashboard and the command line: input and output.
- The IPv4 total length and Ethernet padding: the decoder ignores them, so the round trip is about unpadded frames.
- ICMP frames of the generator: the ICMP decoder is modelled, their round trip is not.
