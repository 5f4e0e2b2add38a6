# Meshpoint models

A Dafny model of the parts of Meshpoint whose correctness is a statement about bytes, histories or whole runs,
with proofs of those statements. `dafny verify dfyconfig.toml` checks everything.

The system receives LoRa frames on a concentrator board, decodes them, keeps node and packet tables, and shows
them on a dashboard. Three kinds of code are modelled.

**Byte-level readers and writers.** `extra/sniffer.c` reads the Protocol Buffers wire format by hand.
`Wire.dfy` models its cursor, varint, zigzag and skip primitives and gives the encoder that is their specification;
`DecoderRun.dfy` follows the loop all its decoders share through any byte string, negative lengths included;
`Fields.dfy` says what "the last value wins" means over a list of fields; `Meshtastic.dfy`, `MeshtasticNested.dfy`
and `DataMessage.dfy` model the decoders as loops that return records where the C code prints them, and prove them
equal to that reading; `MessageRoundTrips.dfy` gives the encoders of all these messages and carries every record
through all levels of nesting; `MessageMerge.dfy` says what decoding two messages run together gives. `LoRaWan.dfy` does the same for LoRaWAN data frames (section 4.3 of the LoRaWAN 1.0.3
Specification), `WebSocketFrames.dfy` for the text frames of the local radar server (section 5.2 of RFC 6455).

**Stores that must agree with their history.** `NodeDb.dfy` is the sniffer's node array. `RadarStore.dfy` and
`RadarHistory.dfy` are the local radar's node table under packets and heartbeats, with `RadarColumns.dfy` for what each
field of a message does to each column, `DuplicateMerge.dfy` its one-time cleanup. `MeshcoreIdentity.dfy`,
`MeshcoreNodes.dfy` and `MeshcoreTelemetry.dfy` are the import of a MeshCore archive, with `MeshcoreReadings.dfy` for the
readings it leaves, `NeighbourImport.dfy` and `NeighbourLaws.dfy` the import of heard neighbours, with
`NeighbourFile.dfy` from the entries of the file to the rows. Tables are maps or sequences held in
fields that methods update; SQL NULL is `None`.

**Incremental state machines against simple definitions.** `ConfigMerge.dfy`, `ConfigLayers.dfy` and
`ConfigFiles.dfy` are the layered configuration merge and its unknown-key report, with `ConfigEffects.dfy` for what a
document sets, `PacketBatcher.dfy` the animation-frame queue of the dashboard,
`ChatList.dfy` the message list with its day separators, `StableSorting.dfy`, `NodeSort.dfy` and `ChannelOrder.dfy` the
favourites-first orderings, `LocationFixes.dfy` and `MapReports.dfy` two loops of the coordinator.

Wherever the code is imperative there is a method with its loops, proved equal to a specification function of its
input or of the old state; the lemmas then prove what the system promises about that function. A promise that turned
out to hold only under a condition is stated as an equivalence with the condition, beside an input on which it
fails. These are the conditions found, each with its equivalence and then its failing input:

- A length prefix whose cast to `int` is negative leaves the sniffer's cursor before the prefix, and one that takes back
  the tag as well stops its progress (`Wire.PrefixKeepsCursorIffItFits`, `Wire.PrefixAdvancesIff`;
  `Wire.NegativePrefixRewinds`, `Wire.ShortNegativePrefixAdvances`). A decoder's loop therefore ends, leaves the buffer
  or turns forever as the cursors it visits say (`DecoderRun.OutcomeIff`; `DecoderRun.TwoNegativeLengths`).
- A WebSocket frame of 2^32 bytes or more announces only the low 32 bits of its length
  (`WebSocketFrames.FrameRoundTripIff`; `WebSocketFrames.LongFrameIsRefused`).
- Node ids that start with "!!" keep a leading "!" (`RadarHistory.KeysAreBareIff`, `DuplicateMerge.CleanIff`;
  `RadarHistory.DoubleBangKeepsOne`, `DuplicateMerge.DoubleBangSurvives`), and the cleanup loses the packets of a "!!"
  row that is folded into a "!" row which is folded on (`DuplicateMerge.MergeConservesIff`;
  `DuplicateMerge.CountsCanBeLost`).
- A MeshCore node id stands for another node when a contact or neighbour is named like it, or when it is eight characters
  long and a later contact's longer key starts with it (`MeshcoreIdentity.IdsResolveIff`;
  `MeshcoreIdentity.NameTakesId`, `MeshcoreIdentity.LongerKeyTakesId`).
- An archive row whose stored time is NULL never advances (`MeshcoreNodes.HeardIsMaximumIff`;
  `MeshcoreNodes.NullTimeNeverAdvances`).
- A telemetry import stops at a reading whose timestamp does not convert (`MeshcoreTelemetry.ImportCompletesIff`;
  `MeshcoreTelemetry.FarFutureStops`).
- A node that is new, listed once and already captured more recently moves on the second neighbour import
  (`NeighbourLaws.ImportTwiceIff`; `NeighbourLaws.SecondImportCanMove`).
- Two configuration files collapse into one unless the first replaces a nested section, or a plugin's mapping, that the
  second gives a mapping again; a plugin's new mapping that names all its old keys does no harm
  (`ConfigMerge.LayersComposeIff`, `ConfigFiles.FilesComposeIff`; for every such pair `ConfigMerge.NoSingleLayer`,
  `ConfigFiles.NoSingleFile`). Configurations are compared up to the order in which mappings list their keys.
- The dashboard queue is first-in first-out unless a packet arrives on a hidden tab while others wait
  (`PacketBatcher.FifoIff`; `PacketBatcher.HiddenTabOvertakes`); a frame that fires before the handler is installed
  leaves packets waiting with nothing scheduled (`PacketBatcher.AlwaysScheduledIff`; `PacketBatcher.EarlyFrameStrands`).
- The message list differs from a full render when the top message has no timestamp, or when a first page meets a
  remembered day (`ChatList.StaysFaithfulIff`, `ChatList.AlwaysFaithfulIff`; `ChatList.UndatedTopKeepsTwoSeparators`,
  `ChatList.EarlyMessageHidesTheDay`).

## Model

| member | source | states |
|---|---|---|
| `Wire.PbVarint` | extra/sniffer.c:323-332 | the loop over the bytes returns the base-128 number they spell, reduced to 64 bits, and stops behind the first byte without a continuation bit or at the end of the buffer |
| `Wire.OrIsSum` | extra/sniffer.c:327-327 | a bitwise OR of a value shifted past the bits of a number adds it to that number, modulo 2^64, whatever the shift |
| `Wire.VarintTurn` | extra/sniffer.c:326-329 | so the OR of one shifted seven-bit group leaves room for the next, and the number still to be completed stays the one the bytes spell |
| `Wire.VarintInverse` | extra/sniffer.c:323-332 | the minimal encoding of any number, wherever it stands in a buffer, is read as that number and consumed exactly |
| `Wire.VarintValInverse` | extra/sniffer.c:323-332 | varints below 2^64 round-trip through the 64-bit reader |
| `Wire.VarintLength` | extra/sniffer.c:324-329 | the encoding has at most n bytes if and only if the value is below 128^n, so ten bytes suffice for 64 bits |
| `Wire.ZigzagInverse` | extra/sniffer.c:335-337 | every int32 comes back from its zigzag form, which fits 32 bits |
| `Wire.ZigzagOnto` | extra/sniffer.c:335-337 | every 32-bit word is the zigzag form of the number read from it |
| `Wire.ZigzagHalves` | extra/sniffer.c:335-337 | even words are the natural numbers, odd ones the negative ones, each by half |
| `Wire.PbSkip` | extra/sniffer.c:348-361 | returns false exactly where no value of the wire type fits, otherwise leaves the cursor at the next field, with the length prefix cast to int as in C |
| `Wire.TakeKeepsCursor` | extra/sniffer.c:348-361 | a field that is taken moves the cursor strictly forward inside the buffer and its body lies inside the parent |
| `Wire.PrefixKeepsCursorIffItFits` | extra/sniffer.c:354-358 | an accepted length prefix leaves the cursor between the prefix and the end of the buffer if and only if its int cast is non-negative and the sum does not overflow |
| `Wire.PrefixAdvancesIff` | extra/sniffer.c:348-361 | a field with an accepted length prefix moves the cursor strictly forward inside the buffer if and only if the prefix, cast to int, takes back less than the tag and the prefix and does not overflow |
| `Wire.ShortNegativePrefixAdvances` | extra/sniffer.c:354-358 | a length of -1 on which the cursor still advances |
| `Wire.NegativePrefixRewinds` | extra/sniffer.c:354-358 | a six-byte message on which the cursor returns to 0, so the condition cannot be dropped |
| `Wire.EncFieldsConcat` | extra/sniffer.c:348-361 | encoding a concatenation of field lists is the concatenation of the encodings |
| `Wire.GuideExamples` | extra/sniffer.c:323-361 | the encoder writes the examples of the Protocol Buffers encoding guide |
| `Wire.FixedExamples` | extra/sniffer.c:348-361 | and fixed words least significant byte first |
| `Wire.ReadFieldInverse` | extra/sniffer.c:451-460 | one turn of a decoder loop inverts the encoder on any well-formed field, wherever it stands, and stops right behind it |
| `Wire.ParseInverse` | extra/sniffer.c:450-461 | parsing inverts encoding for every list of well-formed fields, whatever bytes follow |
| `Wire.ParseEncoded` | extra/sniffer.c:450-461 | a whole encoded message parses to exactly its fields, and every length in it fits |
| `Wire.ParseShift` | extra/sniffer.c:450-461 | the fields of a message do not depend on what stands before it in the buffer |
| `Wire.ParseAppend` | extra/sniffer.c:450-461 | a complete message, in whatever encoding of its numbers, followed by any bytes has first its own fields, then those of the rest |
| `Wire.EncodedIsComplete` | extra/sniffer.c:450-461 | what the encoder writes is complete |
| `Wire.ParseConcat` | extra/sniffer.c:450-461 | the same for the encoding of a list of fields |
| `DecoderRun.OutcomeIff` | extra/sniffer.c:450-461 | for every byte string the loop ends exactly when some cursor it visits is at the end or in front of no readable field, reads in front of the buffer exactly when some cursor is negative, and turns forever exactly when a cursor comes back |
| `DecoderRun.TwoNegativeLengths` | extra/sniffer.c:354-358 | of two messages with a negative length one turns forever and one is read to its end |
| `DecoderRun.FitIsRead` | extra/sniffer.c:450-461 | where no length is negative or overflows the loop visits exactly the fields from front to back |
| `DecoderRun.ReadEncoded` | extra/sniffer.c:450-461 | it visits exactly the fields of an encoded message |
| `DecoderRun.Turn` | extra/sniffer.c:451-460 | each branch a decoder loop can take visits the next field of the run at a cursor it was not at before, or ends it |
| `Fields.LastWins` | extra/sniffer.c:455-460 | in a concatenation the later list decides every field it mentions and leaves the others, for varints, words and bodies |
| `Fields.Irrelevant` | extra/sniffer.c:455-460 | a field with another number or wire type can stand anywhere without changing what is found |
| `Meshtastic.DecodePosition` | extra/sniffer.c:446-469 | whenever its loop ends inside the buffer, returns the last latitude, longitude (zigzag) and altitude it visits, absent where it visits none |
| `Meshtastic.DecodeDeviceMetrics` | extra/sniffer.c:531-559 | the same for the last value of each of the five device fields |
| `Meshtastic.DecodeEnvMetrics` | extra/sniffer.c:562-582 | the same for each environment field |
| `Meshtastic.DecodeLocalStats` | extra/sniffer.c:814-846 | the same for each of the seven counters and ratios |
| `Meshtastic.DecodePowerMetrics` | extra/sniffer.c:849-872 | the same for the voltage and current of each channel |
| `MeshtasticNested.DecodeTelemetry` | extra/sniffer.c:588-621 | decodes every metrics block, from a slice inside the message, in the order of the message |
| `MeshtasticNested.DecodeWaypoint` | extra/sniffer.c:686-723 | returns the last of each field, texts cut to their buffers and at the first NUL |
| `MeshtasticNested.DecodeNeighborInfo` | extra/sniffer.c:644-683 | decodes every neighbour from its slice, shows the first six and counts all |
| `MeshtasticNested.DecodeNeighbor` | extra/sniffer.c:657-671 | the inner loop returns the last id and signal of one neighbour |
| `MeshtasticNested.DecodeStoreForward` | extra/sniffer.c:749-811 | repeated embedded messages merge: their counters are the last values over all occurrences run together |
| `MeshtasticNested.MergeCounters` | extra/sniffer.c:771-798 | an inner loop that starts from earlier counters ends with those of both messages run together |
| `MeshtasticNested.AppendWords` | extra/sniffer.c:890-894 | appends packed words until sixteen are held: the array is the first sixteen of the old entries followed by the new |
| `MeshtasticNested.AppendZigzags` | extra/sniffer.c:895-905 | the same for packed signal values |
| `MeshtasticNested.First16Absorbs` | extra/sniffer.c:890-905 | cutting at sixteen after every append equals cutting once at the end |
| `MeshtasticNested.Hops.Append` | extra/sniffer.c:890-905 | one length-delimited field extends exactly the array of its number, up to sixteen entries |
| `MeshtasticNested.MergeEmbedded` | extra/sniffer.c:771-800 | an embedded heartbeat or statistics message updates exactly its own counters |
| `MeshtasticNested.DecodeTraceroute` | extra/sniffer.c:875-926 | each of the four arrays holds the first sixteen packed entries seen under its field number |
| `DataMessage.DecodeBody` | extra/sniffer.c:1010-1031 | the payload is decoded by the decoder of its port |
| `DataMessage.DecodeData` | extra/sniffer.c:982-1033 | rejects unknown ports, otherwise decodes the last payload under the last port number |
| `MessageMerge.ConcatMerges` | extra/sniffer.c:446-1033 | decoding a complete message, in whatever encoding of its numbers, followed by more bytes is the merge of the two decodings, for all eleven decoders: later values win field by field, telemetry and neighbours are appended, routes joined before they are cut, embedded heartbeats and statistics merged, port and payload decided separately |
| `DataMessage.UnknownFieldsIgnored` | extra/sniffer.c:455-460 | a field a decoder has no branch for never changes its result, for all eleven decoders |
| `DataMessage.PositionRoundTrip` | extra/sniffer.c:446-469 | every position with 32-bit coordinates, encoded with zigzag and sign extension, is read back |
| `DataMessage.DeviceMetricsRoundTrip` | extra/sniffer.c:531-559 | every set of device metrics is read back from its fields |
| `DataMessage.DataEnvelope` | extra/sniffer.c:982-1033 | a known port and any non-empty payload come out of an encoded Data message as they went in |
| `DataMessage.TelemetryNesting` | extra/sniffer.c:588-621 | for every well-formed list of metric fields, Data around Telemetry around DeviceMetrics decodes to the last-one-wins reading of that list |
| `DataMessage.PositionNesting` | extra/sniffer.c:1010-1012 | every non-empty position comes back through Data and Position |
| `DataMessage.WordsInverse` | extra/sniffer.c:893-894 | packed words of any length are read back |
| `DataMessage.ZigzagsInverse` | extra/sniffer.c:898-904 | packed zigzag values of any length are read back, wherever they stand |
| `MessageRoundTrips.EnvMetricsRoundTrip` | extra/sniffer.c:562-582 | temperature, humidity and pressure written under 1, 2 and 3 are read back as what they are |
| `MessageRoundTrips.LocalStatsRoundTrip` | extra/sniffer.c:814-846 | the same for the seven local statistics under 1 to 7 |
| `MessageRoundTrips.PowerMetricsRoundTrip` | extra/sniffer.c:849-872 | the same for voltage and current of three channels under 1 to 6 |
| `MessageRoundTrips.TelemetryRoundTrip` | extra/sniffer.c:588-1033 | any list of metrics of all four kinds comes back through Data and Telemetry, in order, each as its kind and with its own values |
| `MessageRoundTrips.WaypointRoundTrip` | extra/sniffer.c:686-1033 | a waypoint comes back through Data, its name up to 63 bytes and its description up to 127 |
| `MessageRoundTrips.ClipStops` | extra/sniffer.c:705-713 | a text is shown up to its first NUL |
| `MessageRoundTrips.NeighborInfoRoundTrip` | extra/sniffer.c:644-1033 | any list of neighbours comes back through Data and NeighborInfo: the first six in order, and how many there are |
| `MessageRoundTrips.StoreForwardRoundTrip` | extra/sniffer.c:749-1033 | request, heartbeat and statistics come back through Data and StoreAndForward, each number under its own name |
| `MessageRoundTrips.TracerouteRoundTrip` | extra/sniffer.c:875-1033 | both routes and both lists of signals, of any length, come back through Data and RouteDiscovery up to the sixteenth hop |
| `MessageRoundTrips.EveryPort` | extra/sniffer.c:365-1033 | for every port number and payload: which ports are rejected, which show the payload as text, which show its first 24 bytes |
| `LoRaWan.DecodeLoRaWan` | extra/sniffer.c:1096-1179 | the C branches and offsets agree with reading the frame as the specification cuts it, for all byte strings, truncated and malformed ones included |
| `LoRaWan.DecodeDataFrame` | extra/sniffer.c:1119-1154 | the same for the data-frame case alone |
| `LoRaWan.DataAcceptedIff` | extra/sniffer.c:1119-1137 | a data frame is reported if and only if header, announced FOpts and MIC fit |
| `LoRaWan.PartitionsExactly` | extra/sniffer.c:1119-1153 | for every accepted data frame, header, FOpts, optional port with payload, and MIC put back together are the bytes received |
| `LoRaWan.CutInvertsBuild` | extra/sniffer.c:1119-1153 | the parser inverts the frame builder for all FOpts lengths 0 to 15 and all payloads |
| `LoRaWan.CutIsInjective` | extra/sniffer.c:1119-1153 | two accepted frames with the same parts are the same bytes |
| `LoRaWan.JoinRequestRoundTrip` | extra/sniffer.c:1104-1112 | a join request is read back from its identifiers and nonce, whatever its MIC |
| `LoRaWan.FlagsComeBack` | extra/sniffer.c:1124-1131 | flags put into FCtrl come back each from its own bit, ADRACKReq only on uplinks and FPending only on downlinks |
| `LoRaWan.RejoinRoundTrip` | extra/sniffer.c:1156-1168 | the device of a rejoin request of type 0 or 2 is read from behind the NetID |
| `LoRaWan.RejoinTypeOneRoundTrip` | extra/sniffer.c:1156-1168 | type 1 gives join server and device |
| `LoRaWan.OtherFrames` | extra/sniffer.c:1096-1179 | what is reported of join accepts, proprietary frames and frames too short for their type |
| `NodeDb.Table.NodeFind` | extra/sniffer.c:144-148 | finds the first record with the id, or reports that there is none |
| `NodeDb.Table.NodeGetOrAdd` | extra/sniffer.c:150-158 | gives the record of the id, a blank new one at the end, or nothing when 1024 others are held; all other records stay |
| `NodeDb.Table.NodeUpsert` | extra/sniffer.c:206-219 | updates the array in place to the specified new contents |
| `NodeDb.UpsertKeepsDistinct` | extra/sniffer.c:150-158 | no upsert creates a second record for an id |
| `NodeDb.UpdateSets` | extra/sniffer.c:150-219 | after every run one update more sets names, hardware, key and time of its node, each from its own argument and cut to its buffer, and nothing else |
| `NodeDb.AppearancesAreDistinct` | extra/sniffer.c:150-158 | the order of first appearance lists every id of the run exactly once |
| `NodeDb.RunIsLastKnown` | extra/sniffer.c:206-219 | after every run the table holds the first 1024 nodes that appeared, in that order, each with the last non-blank names, key and time reported |
| `WebSocketFrames.BrowserSocket.Send` | extra/local_meshradar/server.py:668-684 | appends one frame for the payload to what was sent, byte by byte as the code builds it |
| `WebSocketFrames.BrowserSocket.SendAll` | extra/local_meshradar/server.py:668-684 | a run of sends appends the frames of the messages in order |
| `WebSocketFrames.LowWord` | extra/local_meshradar/server.py:676-683 | the shifts and masks of the long form spell the low 32 bits of the length, most significant byte first |
| `WebSocketFrames.FrameForms` | extra/local_meshradar/server.py:668-684 | the three forms of a frame byte by byte: final text fragment, no mask, length in 7, 16 or 64 bits |
| `WebSocketFrames.ReadHead` | extra/local_meshradar/server.py:671-683 | a reader that insists on minimal length forms finds the payload length in all three ranges |
| `WebSocketFrames.FrameRoundTripIff` | extra/local_meshradar/server.py:668-684 | a frame is read back, leaving the rest untouched, if and only if its payload is shorter than 2^32 bytes |
| `WebSocketFrames.LongFrameIsRefused` | extra/local_meshradar/server.py:675-683 | a payload of exactly 2^32 bytes whose frame is not read back |
| `WebSocketFrames.StreamRoundTrip` | extra/local_meshradar/server.py:668-684 | frames of any sequence of messages, before any readable stream, decode to that sequence followed by the stream |
| `WebSocketFrames.MessagesComeBack` | extra/local_meshradar/server.py:668-684 | any sequence of messages sent comes back as the same sequence |
| `WebSocketFrames.AcceptedIsFrame` | extra/local_meshradar/server.py:668-684 | conversely whatever the reader accepts is byte for byte the frame the server writes |
| `RadarStore.RadarDb.TouchNodeFromPacket` | extra/local_meshradar/server.py:424-528 | a packet inserts or updates exactly the row of its node, by the INSERT and ON CONFLICT rules |
| `RadarStore.RadarDb.UpsertNode` | extra/local_meshradar/server.py:531-597 | a heartbeat entry inserts or updates exactly the row of its node; an entry without an id does nothing |
| `RadarStore.RadarDb.HandlePacket` | extra/local_meshradar/server.py:337-409 | stores the packet in any case, touches the row of its source and reports that row as it then stands |
| `RadarStore.RadarDb.HandleHeartbeat` | extra/local_meshradar/server.py:600-625 | applies the entries in order |
| `RadarColumns.PacketSets` | extra/local_meshradar/server.py:424-528 | a packet changes only the row of its source, each column from its own field: a nodeinfo packet names, role, key and hardware, a telemetry packet its readings under the eight names, any packet signal, count and time |
| `RadarColumns.EntrySets` | extra/local_meshradar/server.py:531-597 | a heartbeat entry changes only the row of its node, each column from its own field, blank texts and missing coordinates leaving what was there |
| `RadarColumns.HeartbeatSets` | extra/local_meshradar/server.py:600-625 | a heartbeat leaves in a row what the last of its entries about that node says |
| `RadarColumns.LastPacketTold` | extra/local_meshradar/server.py:337-528 | over every run, what the row says when a packet was the last message about its node |
| `RadarColumns.LastEntryTold` | extra/local_meshradar/server.py:531-625 | and when a heartbeat entry was |
| `RadarHistory.RowsAreFolds` | extra/local_meshradar/server.py:424-597 | rows do not influence each other: each is the fold of the reports about its own node |
| `RadarHistory.FoldTells` | extra/local_meshradar/server.py:424-597 | folding a node's reports through the INSERT and ON CONFLICT rules gives what its history says, column by column |
| `RadarHistory.RunTells` | extra/local_meshradar/server.py:424-597 | after every run of messages a row exists exactly for each node reported, with its last non-blank names, role, key and telemetry, the last heartbeat's count plus the packets since, and the latest time since that heartbeat |
| `RadarHistory.UpdateKeepsTimes` | extra/local_meshradar/server.py:424-597 | one more report keeps the count and the time in step with the history |
| `RadarHistory.FirstSeenNeverChanges` | extra/local_meshradar/server.py:424-597 | no further messages change a row's first_seen or remove the row |
| `RadarHistory.FirstSeenOf` | extra/local_meshradar/server.py:424-597 | over every run first_seen is fixed by the first message that names the node: the packet's own time or its arrival, or what the first heartbeat entry for the node claims |
| `RadarHistory.DoubleBangKeepsOne` | extra/local_meshradar/server.py:460-460 | one packet from "!!a" makes a row keyed "!a" |
| `RadarHistory.OneRowPerNode` | extra/local_meshradar/server.py:455-460 | an id with and without its leading "!" is one key if and only if the bare id does not start with one |
| `RadarHistory.KeysAreBareIff` | extra/local_meshradar/server.py:424-597 | every row is keyed by a bare id if and only if no message carries an id that starts "!!" |
| `DuplicateMerge.NodesTable.MergeDuplicates` | extra/local_meshradar/merge_duplicate_nodes.py:39-114 | the loop that updates, renames and deletes rows folds every prefixed row into its bare key; a dry run counts the same and changes nothing |
| `DuplicateMerge.AfterSteps` | extra/local_meshradar/merge_duplicate_nodes.py:47-110 | midway through the loop the table is the closed form for the rows handled so far |
| `DuplicateMerge.MergedTable` | extra/local_meshradar/merge_duplicate_nodes.py:47-110 | whatever the order of the rows, the result has no prefixed id and one row per bare key, merged exactly where both existed |
| `DuplicateMerge.SecondRunMergesNothing` | extra/local_meshradar/merge_duplicate_nodes.py:39-114 | a second run finds no row to merge and changes nothing |
| `DuplicateMerge.MergeKeepsKnown` | extra/local_meshradar/merge_duplicate_nodes.py:73-110 | a merged row keeps every known column and coordinate of either row, the prefixed one first, has a position if either had, and takes the later time with its signal |
| `DuplicateMerge.MergedName` | extra/local_meshradar/merge_duplicate_nodes.py:73-76 | the name shown: long name, short name, what the target showed, what the prefixed row did, the id |
| `DuplicateMerge.MergedNumbers` | extra/local_meshradar/merge_duplicate_nodes.py:77-104 | the later time with its signal, the sum of the counts, a position if either row has one |
| `DuplicateMerge.MergeLoses` | extra/local_meshradar/merge_duplicate_nodes.py:41-110 | for every table and order the sum of a device's packet counts, NULL as 0, drops by exactly the counts of "!!" rows folded into a "!" row before that row is folded on |
| `DuplicateMerge.MergeConservesIff` | extra/local_meshradar/merge_duplicate_nodes.py:41-110 | with natural counts a device keeps its sum if and only if no such row has packets |
| `DuplicateMerge.MergeConserves` | extra/local_meshradar/merge_duplicate_nodes.py:101-110 | without "!!" ids every device keeps its sum, whatever the counts |
| `DuplicateMerge.CountsCanBeLost` | extra/local_meshradar/merge_duplicate_nodes.py:41-110 | three rows on which five packets are lost |
| `DuplicateMerge.DoubleBangSurvives` | extra/local_meshradar/merge_duplicate_nodes.py:47-71 | a "!!" row handled last leaves a prefixed row behind |
| `DuplicateMerge.CleanIff` | extra/local_meshradar/merge_duplicate_nodes.py:47-110 | in every order no prefixed id remains, if and only if no id starts "!!" |
| `MeshcoreIdentity.BuildIdentityMaps` | scripts/import_meshcore_db.py:165-190 | the two loops over contacts and neighbours build the specified name and prefix maps |
| `MeshcoreIdentity.ContactsStand` | scripts/import_meshcore_db.py:169-177 | after the contacts every id in use is a key of the prefix map and stands there for itself, or, when eight characters long, for the last contact whose key it starts |
| `MeshcoreIdentity.NeighboursStand` | scripts/import_meshcore_db.py:179-188 | the neighbours change nothing about that |
| `MeshcoreIdentity.NamesAreFirst` | scripts/import_meshcore_db.py:169-188 | a name stands for the first contact named so, or else for what the prefix map has for the first neighbour named so |
| `MeshcoreIdentity.IdsResolveIff` | scripts/import_meshcore_db.py:148-162 | for all rows an id produced for a key or a name resolves to itself if and only if the first row named like it has that id or, when there is none and it is eight characters long, the last contact whose key it starts has no longer key |
| `MeshcoreIdentity.NameTakesId` | scripts/import_meshcore_db.py:148-177 | two contacts, the second named like the first one's id, which then resolves to the second |
| `MeshcoreIdentity.LongerKeyTakesId` | scripts/import_meshcore_db.py:169-177 | two contacts, the second one's key going on where the first one's ends |
| `MeshcoreIdentity.ShortPrefixResolves` | scripts/import_meshcore_db.py:179-188 | an eight-character prefix of a contact key resolves to the id of the last contact with that prefix, unless a node is named like it |
| `MeshcoreIdentity.SlugShape` | scripts/import_meshcore_db.py:61-63 | a slug has only letters, digits, dots, dashes and inner underscores, is not empty, and a text like that is its own slug |
| `MeshcoreNodes.NodeImporter.UpsertRow` | scripts/import_meshcore_db.py:202-234 | a row with name and time is upserted and counted, any other only counted as skipped |
| `MeshcoreNodes.NodeImporter.ImportNodes` | scripts/import_meshcore_db.py:193-259 | both loops together apply the usable records in order, and every source row is counted once as upserted or skipped |
| `MeshcoreNodes.ContactSets` | scripts/import_meshcore_db.py:202-244 | what a contact puts into the node table: its own name, position, role by type and first non-zero time, under the first twelve characters of its key |
| `MeshcoreNodes.NeighbourSets` | scripts/import_meshcore_db.py:202-257 | the same for a neighbour, under the id the prefix map has for its key |
| `MeshcoreNodes.WinnerIsFirstLatest` | scripts/import_meshcore_db.py:213-230 | the winning record is the first of those with the latest time |
| `MeshcoreNodes.ImportOutcome` | scripts/import_meshcore_db.py:207-233 | after any list of records a row has name, position and time of that winner where it is later than the prior time, otherwise its own, and the role of the last record |
| `MeshcoreNodes.RowAfterImport` | scripts/import_meshcore_db.py:207-233 | column by column: name and position come from the first record that reached the latest time, if later than the prior row, role from the last record, first_seen and count only on a new row |
| `MeshcoreNodes.HeardIsMaximumIff` | scripts/import_meshcore_db.py:227-230 | the stored time ends at the maximum of the prior and all imported times if and only if an existing row had one |
| `MeshcoreNodes.NullTimeNeverAdvances` | scripts/import_meshcore_db.py:227-230 | a row without a stored time stays without one whatever is imported |
| `MeshcoreNodes.ImportIsIdempotent` | scripts/import_meshcore_db.py:193-259 | importing the same records again changes nothing |
| `MeshcoreTelemetry.TelemetryImporter.RecordCall` | scripts/import_meshcore_db.py:353-375 | one reading is inserted, counted as a duplicate, or raises on a missing timestamp |
| `MeshcoreTelemetry.TelemetryImporter.ReadRow` | scripts/import_meshcore_db.py:377-398 | one history row is recorded, ranked or skipped as its channel and type say |
| `MeshcoreTelemetry.TelemetryImporter.ReadHistory` | scripts/import_meshcore_db.py:377-398 | the history loop records clean readings and keeps the best temperature candidate of each slot |
| `MeshcoreTelemetry.TelemetryImporter.RecordTemperatures` | scripts/import_meshcore_db.py:400-401 | the kept temperatures are recorded in order of first appearance |
| `MeshcoreTelemetry.TelemetryImporter.ReadStatus` | scripts/import_meshcore_db.py:405-418 | the status loop records voltage and uptime and skips the rest |
| `MeshcoreTelemetry.TelemetryImporter.ImportSamples` | scripts/import_meshcore_db.py:339-421 | the whole import is that run of steps, or leaves the table as it was when a step raises |
| `MeshcoreTelemetry.BestIsFirstBest` | scripts/import_meshcore_db.py:390-396 | for each node and time the import keeps the first reading of the best-ranked temperature channel, and keeps one exactly where there is a candidate |
| `MeshcoreTelemetry.RunAccounts` | scripts/import_meshcore_db.py:353-375 | every step counts once, as inserted or skipped, and every insertion once under its column |
| `MeshcoreTelemetry.EveryRowAccounted` | scripts/import_meshcore_db.py:339-421 | inserted plus skipped equals the rows read, the per-field counts sum to inserted, and the table grows by inserted |
| `MeshcoreTelemetry.KeptRow` | scripts/import_meshcore_db.py:390-396 | what the import keeps for a node and time is the reading of the first best-ranked source row |
| `MeshcoreTelemetry.ImportCompletesIff` | scripts/import_meshcore_db.py:339-421 | the import completes if and only if each clean reading with a value, each status reading with a value, and each temperature that is the first best-ranked of its slot and has a value, has a timestamp that converts |
| `MeshcoreTelemetry.FarFutureStops` | scripts/import_meshcore_db.py:52-58 | one voltage dated after the year 9999 stops the import |
| `MeshcoreTelemetry.TableAfter` | scripts/import_meshcore_db.py:121-145 | afterwards the table holds what it held and the recorded readings, nothing else |
| `MeshcoreTelemetry.CountsByColumn` | scripts/import_meshcore_db.py:371-373 | the count kept for a column is the number of rows the run added with it |
| `MeshcoreReadings.FirstBestIsKept` | scripts/import_meshcore_db.py:349-398 | the temperature kept for a node and time is the first on channel 4, else the first on channel 3, else the first on channel 1 |
| `MeshcoreReadings.TableIsReadings` | scripts/import_meshcore_db.py:339-421 | the table ends with what it held, voltage of channel 1, barometer of 3, humidity of 4, that one temperature for each node and time, battery voltage and uptime, each under its own column, and nothing else |
| `MeshcoreTelemetry.SecondRunInsertsNothing` | scripts/import_meshcore_db.py:89-145 | a second run over the same archive inserts nothing, skips every row and leaves the table as it is |
| `NeighbourImport.MeshpointDb.ImportNeighbours` | import_contacts.py:287-394 | the three loops prepare the rows, build the prefix map and import; a dry run changes nothing |
| `NeighbourImport.MeshpointDb.PrepareRows` | import_contacts.py:287-311 | the loop over the file prepares each usable row, in order |
| `NeighbourImport.MeshpointDb.BuildPrefixMap` | import_contacts.py:326-330 | the loop over the stored MeshCore ids builds the prefix map |
| `NeighbourImport.ClampFuture` | import_contacts.py:110-129 | a time is never left more than two minutes ahead, and is untouched otherwise |
| `NeighbourFile.PreparedTells` | import_contacts.py:284-311 | an entry is prepared with its own key, name, position and signal, the role of its type, and the time it was heard by our clock if it says how long ago, whatever the node claims; by the node's own claim otherwise, unless that is in the future |
| `NeighbourFile.PrefixMapTells` | import_contacts.py:325-330 | a prefix stands for the last listed MeshCore id that starts with it |
| `NeighbourLaws.StepKeepsCaptured` | import_contacts.py:380-391 | replacing a synthetic packet leaves every captured packet in place |
| `NeighbourLaws.ImportRow` | import_contacts.py:334-391 | captured packets are unchanged, and each row is the fold of its own records against the newest captured packet of the table before the import |
| `NeighbourLaws.ExistingRowAnchored` | import_contacts.py:354-362 | a row that existed and is listed ends at the maximum of its last fresh time and its newest captured packet |
| `NeighbourFile.FileToRow` | import_contacts.py:284-375 | from the file to the row: the last entry about a node gives name, role, position and time, never before a packet captured from it; first_seen and count of an existing row stay; a new row is seen first at that time |
| `NeighbourFile.OthersStay` | import_contacts.py:333-375 | a node the file says nothing about keeps its row |
| `NeighbourLaws.OneSyntheticEach` | import_contacts.py:380-391 | every imported node with a signal ends with exactly one synthetic packet, made of its last record; every other node keeps what it had |
| `NeighbourFile.FileToPacket` | import_contacts.py:375-391 | from the file to the packet: it carries id, signal and time of the last entry about the node that has a signal |
| `NeighbourLaws.PacketsAfter` | import_contacts.py:380-391 | the packet table afterwards is the old one without the synthetic packets of the nodes heard, followed by the new ones |
| `NeighbourLaws.PacketsTwice` | import_contacts.py:380-391 | importing the same file again leaves the packet table as it is |
| `NeighbourLaws.TargetsAgree` | import_contacts.py:326-337 | the prefix map of the second import sends every record to the node the first one sent it to |
| `NeighbourLaws.RowTwiceIff` | import_contacts.py:345-362 | folding a node's records twice gives the same row if and only if the node was not new, listed once and captured more recently |
| `NeighbourLaws.ImportTwiceIff` | import_contacts.py:323-394 | importing the same file again at the same clock gives the same tables if and only if no node was new, listed once and captured more recently |
| `NeighbourLaws.SecondImportCanMove` | import_contacts.py:354-362 | a one-record file on which the second import moves a time |
| `ConfigMerge.MergeDataclass` | src/config.py:808-819 | the recursive loop computes the specified merge |
| `ConfigMerge.MergeAt` | src/config.py:812-819 | a field the overrides do not name is untouched, and no field appears or disappears |
| `ConfigMerge.MergeIsIdempotent` | src/config.py:808-819 | merging the same overrides twice is merging them once |
| `ConfigMerge.LayersCompose` | src/config.py:808-819 | merging layer a then layer b is one merge of b laid over a along the schema, where a leaves nested sections a mapping |
| `ConfigMerge.NoSingleLayer` | src/config.py:816-819 | where a replaces a nested section that b gives a mapping, no single layer has their effect, not even up to the order of keys |
| `ConfigMerge.LayersComposeIff` | src/config.py:808-819 | two layers collapse into one if and only if that does not happen, whether the order of keys counts or not |
| `ConfigMerge.CollectUnknownKeys` | src/config.py:822-838 | the recursive loop lists the specified paths in order |
| `ConfigMerge.ReportUnchangedByMerge` | src/config.py:929-939 | computed after the merge, as the code does, the report is the one computed before it |
| `ConfigMerge.ReportIsWrittenPaths` | src/config.py:822-838 | the dotted strings are the reported paths written out |
| `ConfigMerge.ReportedIff` | src/config.py:822-838 | a path is reported if and only if the traversal of the overrides stops at it for want of a field |
| `ConfigMerge.ReportIsWhatWasNotApplied` | src/config.py:822-838 | a reported path is absent from the merged configuration, any other path at which the overrides end holds the override's value |
| `ConfigMerge.ReportIff` | src/config.py:822-838 | the report holds exactly the override paths the merge did not apply |
| `ConfigLayers.MergeSection` | src/config.py:882-904 | setting and popping the converted keys before the merge is one merge of the converted section, and the report after popping and merging is that of the section as written against the schema before |
| `ConfigLayers.PopSpecials` | src/config.py:882-904 | the five converted keys are set and popped, the rest of the section stays, and the report does not change |
| `ConfigLayers.ApplyPlugins` | src/config.py:857-865 | the loop over the plugins computes the specified plugin map |
| `ConfigLayers.ApplyAllSections` | src/config.py:929-939 | the loop over the sections computes the specified sections and lists the unknown keys of the whole file in order, or raises |
| `ConfigLayers.ApplyYaml` | src/config.py:841-948 | the loops over plugins and sections compute the specified layer, its unknown keys in order, or raise on a section that is no mapping |
| `ConfigLayers.LoadConfig` | src/config.py:961-976 | the defaults, then the local file over the result, each with its own report |
| `ConfigLayers.MergePluginsAt` | src/config.py:857-865 | each plugin is updated shallowly or replaced, and plugins the file does not name are untouched |
| `ConfigLayers.UpdateAssociative` | src/config.py:863-863 | shallow updates of a plugin mapping compose |
| `ConfigLayers.PluginsCompose` | src/config.py:857-865 | two layers of plugins are one, combined per plugin, up to the order of keys of a plugin that is replaced in between |
| `ConfigLayers.SectionsCompose` | src/config.py:882-939 | two layers of one section are one, converted keys included |
| `ConfigFiles.TwoLayersCompose` | src/config.py:841-948 | the second of two files laid over the first: sections along the schema, plugins by shallow update, plugin_sources and its switch replaced whole |
| `ConfigFiles.WriteThenParse` | src/config.py:851-879 | what the overlay says can be written as a file, which is read back as it |
| `ConfigFiles.FilesCompose` | src/config.py:841-948 | loading two documents that do not clash, missing, empty and non-mapping ones included, is loading one document that can be written |
| `ConfigFiles.NoSingleFile` | src/config.py:841-948 | where the first replaces a nested section, or a plugin mapping whose old keys the second does not all name, and the second gives a mapping again, no single document has their effect |
| `ConfigFiles.FilesComposeIff` | src/config.py:841-948 | two documents that load collapse into one if and only if that does not happen, with configurations compared up to the order of keys |
| `ConfigFiles.FileTwice` | src/config.py:841-948 | loading the same file twice is loading it once |
| `ConfigEffects.LoadsIff` | src/config.py:808-819 | a document loads unless a section is given something that is neither a mapping nor null, false, 0 or empty |
| `ConfigEffects.SourcesSet` | src/config.py:868-880 | a list under plugin_sources replaces the sources by its mappings in order, a truth value under plugin_sources_enabled the switch; anything else leaves them |
| `ConfigEffects.PluginSet` | src/config.py:857-865 | a plugin the document names holds the new value, a mapping over a mapping keeping the keys it leaves out; others stay |
| `ConfigEffects.FieldSet` | src/config.py:882-939 | each field of each section: converted under the five special keys, merged where section meets mapping, replaced otherwise, kept if not named |
| `ConfigLayers.FileReportIff` | src/config.py:929-948 | of the paths at which a file ends, those it warns about are exactly those with no place in the resulting configuration |
| `PacketBatcher.Batcher.PushPacket` | frontend/js/packet_batcher.js:60-79 | each branch of push (no handler, hidden tab, queue, overflow) is the specified step |
| `PacketBatcher.Batcher.Flush` | frontend/js/packet_batcher.js:39-48 | a flush delivers from the front as far as the frame allows and reschedules what is left |
| `PacketBatcher.Batcher.Drain` | frontend/js/packet_batcher.js:43-46 | n shifts deliver the first n packets in order |
| `PacketBatcher.Batcher.InstallHandler` | frontend/js/packet_batcher.js:59-59 | installing the handler delivers and schedules nothing |
| `PacketBatcher.RunKeepsInvariant` | frontend/js/packet_batcher.js:31-88 | over every run with the handler installed first: delivered plus queued is pushed, the queue path delivers in push order across overflow, at most 2000 wait, and a waiting queue has a flush scheduled |
| `PacketBatcher.PushMoves` | frontend/js/packet_batcher.js:60-87 | a push keeps the packet waiting without a handler, hands it over at once on a hidden tab, and otherwise queues it and hands over the oldest beyond 2000, in order |
| `PacketBatcher.FifoIff` | frontend/js/packet_batcher.js:60-79 | for distinct packets delivered and queued together are in push order if and only if no packet arrived on a hidden tab while others waited |
| `PacketBatcher.AlwaysScheduledIff` | frontend/js/packet_batcher.js:39-55 | at every point of a run a waiting queue has a flush scheduled if and only if no frame fired before the handler was installed while packets waited |
| `PacketBatcher.FramesEmptyIff` | frontend/js/packet_batcher.js:39-48 | once the handler is installed and no more is pushed, frames empty the queue if and only if their budgets together reach its length, as many frames with time for a packet as there are packets always do, and then everything has come out in order |
| `PacketBatcher.HiddenTabOvertakes` | frontend/js/packet_batcher.js:60-67 | a four-event run on which the second packet comes out first |
| `PacketBatcher.EarlyFrameStrands` | frontend/js/packet_batcher.js:39-41 | a two-event run that leaves a packet waiting with nothing scheduled |
| `ChatList.ChatView.SetConversation` | frontend/js/messaging_chat.js:34-98 | opening a conversation empties list, messages and remembered day |
| `ChatList.ChatView.AppendBubble` | frontend/js/messaging_chat.js:268-297 | appends the bubble, behind a separator exactly when its day differs from the remembered one |
| `ChatList.ChatView.AddMessage` | frontend/js/messaging_chat.js:113-117 | records the message and appends its bubble |
| `ChatList.ChatView.LoadMessages` | frontend/js/messaging_chat.js:165-183 | replaces messages and list by the first page |
| `ChatList.ChatView.LoadOlderMessages` | frontend/js/messaging_chat.js:506-553 | prepends an older page, dropping the separator it makes redundant; does nothing on an empty list or past the first message |
| `ChatList.RenderConcat` | frontend/js/messaging_chat.js:613-645 | rendering a concatenation is rendering the parts, the second after the last day of the first |
| `ChatList.RenderAfterDay` | frontend/js/messaging_chat.js:536-541 | starting after a day drops exactly the first separator of a list that begins on that day |
| `ChatList.RenderIff` | frontend/js/messaging_chat.js:613-645 | the rendering is the only list with these bubbles in order in which a separator stands above a bubble of its day exactly where the day changes |
| `ChatList.StaysFaithfulIff` | frontend/js/messaging_chat.js:506-553 | after each event the list still equals a full render, and the remembered day the last day, if and only if the event fits |
| `ChatList.AlwaysFaithfulIff` | frontend/js/messaging_chat.js:506-553 | over every run it does so at every point if and only if every event fits the list it meets |
| `ChatList.EarlyMessageHidesTheDay` | frontend/js/messaging_chat.js:165-183 | a message that arrives before the first page costs the page its separator |
| `ChatList.UndatedTopKeepsTwoSeparators` | frontend/js/messaging_chat.js:536-541 | an older page before an undated top message shows its day twice |
| `ChatList.RunIsFaithful` | frontend/js/messaging_chat.js:268-297 | in every orderly run, with all messages dated, the list maintained incrementally equals rendering all messages from scratch |
| `StableSorting.StableSortIsUnique` | frontend/js/node_cards_sort.js:49-61 | the contract of a stable sort by a consistent comparator fixes its result, whatever the algorithm |
| `StableSorting.StableSortSorts` | frontend/js/node_cards_sort.js:53-60 | a list meeting that contract always exists |
| `StableSorting.StablySortedPermutes` | frontend/js/node_cards_sort.js:53-60 | what meets it is a permutation of the input |
| `StableSorting.StrictOrderIsUnique` | frontend/js/messaging_contacts.js:189-194 | where no two elements tie, being an ordered permutation already fixes the list |
| `StableSorting.PinnedSortSplits` | frontend/js/node_cards_sort.js:53-60 | a stable sort with a pin is the pinned elements sorted, then the others sorted |
| `NodeSort.ComparatorIsConsistent` | frontend/js/node_cards_sort.js:63-102 | signal, hops, name and last-heard each order the nodes as a total preorder, missing values included |
| `NodeSort.MeaningOfCompare` | frontend/js/node_cards_sort.js:84-102 | a comparator result is at most 0 exactly when the first value is better, or equal with a time not later in the second; a missing value is never better, in either direction |
| `NodeSort.ApplySortResult` | frontend/js/node_cards_sort.js:49-61 | whatever stable sort the browser uses, the cards are a permutation of the nodes: the favourites sorted by the key, then the rest sorted by the key |
| `NodeSort.SignalOrder` | frontend/js/node_cards_sort.js:66-70 | no favourite below another node; within a group stronger signals first, missing last, ties by later time heard |
| `NodeSort.HopsOrder` | frontend/js/node_cards_sort.js:71-75 | no favourite below another node; within a group fewer hops first, missing last, ties by later time heard |
| `NodeSort.BySignal` | frontend/js/node_cards_sort.js:66-70 | the same in terms of latest_rssi and rssi, last_heard and last_seen |
| `NodeSort.ByHops` | frontend/js/node_cards_sort.js:71-75 | the same in terms of latest_hops and hop_count |
| `NodeSort.ByTime` | frontend/js/node_cards_sort.js:78-102 | the default: within a group the last heard first, those never heard last |
| `NodeSort.ByName` | frontend/js/node_cards_sort.js:104-108 | by long name, else short name, else id, forwards in the order of the locale |
| `ChannelOrder.SortChannelsResult` | frontend/js/messaging_contacts.js:183-196 | however the browser sorts, stably or not, the list is the starred channels followed by the rest, each in the server's order |
| `LocationFixes.Coordinator.ApplyLatestLocationFix` | src/coordinator.py:270-299 | every callback is called once, in registration order, exactly when a usable fix differs from the last one |
| `LocationFixes.Coordinator.Run` | src/coordinator.py:253-299 | over every run of polls and registrations each callback receives exactly the usable fixes with consecutive repeats removed, from its registration on; a static source delivers nothing |
| `LocationFixes.Coordinator.OnLocationUpdate` | src/coordinator.py:154-163 | registering adds one callback and calls none |
| `LocationFixes.ChangesKeepsOneOfEachRun` | src/coordinator.py:284-293 | removing repeats keeps one of each run: no equal neighbours, and repeating each element as often as it stood gives the list back |
| `LocationFixes.BroadcastReachesEachOnce` | src/coordinator.py:295-299 | one broadcast reaches each registered callback once and no other |
| `LocationFixes.PollOffers` | src/coordinator.py:270-283 | a poll offers latitude, longitude and altitude of a fix of mode 2 or more that has both coordinates, and nothing otherwise |
| `MapReports.PublishMapReport` | src/coordinator.py:325-343 | publishes only with a node id, a position other than (0, 0), and an accepting broker |
| `MapReports.MapReportLoop` | src/coordinator.py:301-323 | the loop makes exactly the attempts the specification times, through connects, failures and overruns |
| `MapReports.ReportsAreSpaced` | src/coordinator.py:313-319 | over every run report j comes at least (j - i) intervals after report i, so two reports are at least 3600 s apart |
| `MapReports.GapBetweenReports` | src/coordinator.py:313-319 | the gap between consecutive reports is exactly one interval plus the time lost in failed and offline turns and overruns |
| `MapReports.NextAttempt` | src/coordinator.py:301-343 | from one attempt to the next: after a report what is configured but at least 3600 s, after a failure 300 s, and the time the turns take |
| `MapReports.OfflineTurn` | src/coordinator.py:305-308 | while the broker is away the loop looks again every five seconds |

## Left out

What the members above do not cover of the code they model:

- Meshtastic.DecodePosition: says nothing where the loop turns forever or reads in front of the buffer (`DecoderRun.OutcomeIff` says when), as every sniffer decoder here; a decoder that reads embedded messages also needs their loops to end.
- MeshtasticNested.DecodeWaypoint: a name or description with a negative length is excluded, because the C code copies that many bytes; so is a Data payload with one, whatever its port, because a text port prints it without a bound.
- MessageMerge.ConcatMerges: requires that no length in the two messages is negative or overflows (`Wire.LengthsFit`), since one that does may lead from the second message back into the first.
- Wire.PbVarint: drops the bits an eleventh byte would shift past 64, where the C shift is undefined; values below 2^64 never need that byte.
- MeshtasticNested.DecodeStoreForward: the inner loops for heartbeat and statistics are one method on three counters; the heartbeat's third counter is never reported.
- DataMessage.DecodeBody: user, routing, paxcounter and map-report payloads (ports 4, 5, 34, 73) are passed through undecoded; they repeat the same loop over other field numbers, and the routing decoder stops at its first hit.
- NodeDb.Table.NodeUpsert: the file the table is saved to and loaded from is not modelled.
- WebSocketFrames.BrowserSocket.Send: works on the UTF-8 bytes; the encoding of text is not modelled.
- RadarStore.RadarDb.HandlePacket: device ids are taken as present, JSON columns as values, the stored packet as a whole; `received_at`, `updated_at` and the broadcast to browsers are not modelled.
- RadarStore.RadarDb.HandleHeartbeat: the heartbeat log row and the rows echoed back are not modelled.
- RadarHistory.RunTells: a heartbeat entry that leaves out the count or the time makes that column NULL until the next entry; the statement says so instead of assuming it away.
- DuplicateMerge.NodesTable.MergeDuplicates: times are integers, compared as the ISO texts are when they share one format.
- MeshcoreIdentity.BuildIdentityMaps: lower-casing and whitespace are those of ASCII.
- MeshcoreIdentity.IdsResolveIff: about ids that do not end in a blank; one could only where a key has a blank as its twelfth character.
- MeshcoreNodes.NodeImporter.ImportNodes: times are integers, compared as the ISO texts the code writes; rows of the source are given in the order SELECT returns them.
- MeshcoreTelemetry.TelemetryImporter.ImportSamples: values are reals and never NaN; the rows come in the order of the SELECT.
- NeighbourImport.MeshpointDb.ImportNeighbours: the clock is one parameter although the code reads it more than once; the printed counters are left out; node ids contain no LIKE wildcard; radio settings stamped on synthetic packets are constants and left out.
- NeighbourLaws.ImportTwiceIff: keys are eight hexadecimal characters, as in the file the companion writes; the ISO text of a time is an arbitrary function.
- ConfigMerge.MergeDataclass: configurations are values, so two references to one nested dataclass are not modelled; an attribute is a field, while the code's `hasattr` also finds methods and class attributes.
- ConfigLayers.MergeSection: the converted keys are popped when their section is visited, not before all sections; the `_coerce_*` functions are one parameter.
- ConfigLayers.LoadConfig: the path check and the radio frequency derived at the end are left out.
- ConfigLayers.ApplyYaml: a raise gives no configuration, while the code leaves a half-updated one behind; the conversions do not raise.
- ConfigFiles.FilesComposeIff: about files that do not raise; mappings are compared up to the order of their keys, while `True` and 1, which Python finds equal, differ.
- PacketBatcher.Batcher.Flush: the time budget is a number of packets; a handler that pushes or flushes while it runs is not modelled, one that throws counts as having been called.
- ChatList.RunIsFaithful: messages are not removed (`removeMessage`), a first page follows the opening of its conversation, and no message arrives in between.
- ChatList.ChatView.LoadMessages: the network, the in-flight flag and the placeholder of an empty conversation are not modelled; separators are days, not labels.
- NodeSort.ApplySortResult: numbers are finite integers, the locale's string order is any consistent comparator and the timestamp parser any function; every node has an id.
- LocationFixes.Coordinator.ApplyLatestLocationFix: coordinates are reals and never NaN; a callback that raises counts as having been called.
- MapReports.MapReportLoop: times are whole seconds, a run is a finite list of turns, and an exception ends it; the content of the report is not modelled.

What is not modelled at all:

- AES, Ed25519, TLS and base64, which are foreign code here.
- Concentrator access, capture RAM, serial lines, sockets, subprocesses and the SQL engine: input and output.
- Printed output, name tables, log texts, HTML and CSS: display only.
- `_import_packets`, `import_contacts`, `handle_register` and the purge and provision scripts: plain inserts or plumbing, which would add only easy members.
- The relay manager, packet router and repositories behind the coordinator.
