# Verified model of the meshtassy firmware

This project models the parts of the firmware that hold its state, its branching and its arithmetic,
and proves what they do for all inputs and all interleavings:

- **Serial framing** (`FrameScan`, `Framers`, `FrameStreams`, `FramePrinting`, `UsbSender`). The byte
  automaton that reassembles frames is a class whose contract speaks only of a declarative parse of
  the stream: what it keeps is the residue of that parse, what it returns is its first frame. The
  sender is a method over a port that may stop taking writes at any point.
- **Node database** (`Names`, `Nodes`, `NodeDatabases`, `NodeHistory`). The fifty slots are an array in
  a class, specified by the ordered list of nodes. That list is then shown to be a function of the
  packet history alone: who was heard first, and what each of them said last.
- **Packets, keys, headers** (`Headers`, `CounterMode`, `CounterBlocks`, `Keys`, `Packets`,
  `TextMessages`, `ChannelHashes`). AES is any block function. Counter mode is written out after
  section 6.5 and appendix B.1 of NIST SP 800-38A.
- **Tasks** (`PacketIds`, `ConfigAnswers`, `Tasks`, `TaskInvariants`, `TaskAnswers`, `TaskForwards`,
  `TaskHost`, `TaskTheorems`, `TaskReactions`). Radio loop, broadcast channel, packet processor and USB forwarder are one
  step system, in which another task may step wherever the source can wait. Taking the free database
  lock is no such point, and the spawned tasks start only once the database is there. The theorems hold
  after every run, down to the bytes a host reads. The code that answers a config request is modelled a
  second time as the straight-line method it is.

Protobuf encoders and decoders are arbitrary functions; where a round trip needs the decoder to undo
the encoder, that is a precondition of the lemma on the message in question. A protobuf encoder fails
exactly when its bytes do not fit the buffer it is given. Integers are mathematical with explicit ranges
and explicit wrapping. `to_ne_bytes` is little-endian, as on both supported processors.

What the step system takes from the documentation of the Embassy runtime: a publication with no
subscriber is lost; `publish_immediate` into the full eight-slot channel drops the oldest entry; a
subscriber behind the window is told how many entries it lost and goes on with the oldest one left; an
entry all subscribers have read may be freed at any time; a mutex has one holder, and `try_lock` fails
if it is taken.

Where the code and its comments differ, the model follows the code:

- The framer is documented to return each complete packet, but a call drops every byte behind the first
  frame it completes (nrf/src/usb_framer.rs:68). `CallIsParseIff` says exactly when that loses nothing.
- The forwarder hands its whole 64-byte buffer to the framer even after a shorter read, so stale bytes
  can be taken for the rest of a payload. `StaleIsHarmlessIff` gives the exact condition.
- An interrupted send outside an answer does not end the connection, and what got out of it swallows or
  shifts the frame behind it. `HostKeepsUpIff` gives the exact condition.
- Name fields are documented as 40 and 4 characters; the capacities count bytes, and a character that
  does not fit is skipped while later ones are still tried, so a stored name need not be a prefix.
  `StoredIsPrefixIff` gives the exact condition.
- The comment at meshtassy-net/src/node_database.rs:418 speaks of `last_heard`, which no packet sets.
- A packet from a new node is reported as handled even if the full database ignored it;
  `AcceptedIsStoredIff` gives the exact condition.

`dafny verify dfyconfig.toml` checks the whole project.

## Model

| member | source | states |
|---|---|---|
| Framers.Framer.constructor | nrf/src/usb_framer.rs:9-16 | A new framer has nothing unfinished. |
| Framers.Framer.PushBytes | nrf/src/usb_framer.rs:19-77 | A call returns the first frame of the unfinished bytes plus the slice, as the declarative scanner finds it, and is then idle with the rest of the slice dropped; without a frame it returns nothing and keeps exactly the scanner's residue. |
| Framers.Framer.PushByte | nrf/src/usb_framer.rs:20-75 | One byte moves the automaton from one residue to the next, or completes a frame. |
| Framers.Framer.Reset | nrf/src/usb_framer.rs:79-84 | Resetting leaves nothing unfinished. |
| FrameScan.FindMagicIsLeftmost | nrf/src/usb_framer.rs:22-34 | The start pair found is the leftmost, also after repeated first start bytes. |
| FrameScan.ScanAppend | nrf/src/usb_framer.rs:19-77 | Scanning is incremental: only the residue of what was read matters to what follows, and a frame found stays found whatever is appended. |
| FrameStreams.CallsParseKeptStream | nrf/src/usb_framer.rs:57-77 | For arbitrary chunks, the packets returned are exactly the frames of the stream from which the tail after each completed frame has been cut. |
| FrameStreams.EmptyTailsParseStream | nrf/src/usb_framer.rs:57-77 | If every tail dropped holds no frame and no beginning of one, successive calls return the declarative parse of the whole stream. |
| FrameStreams.AlignedCallsParseStream | nrf/src/usb_framer.rs:19-77 | If no chunk goes on past a frame end, successive calls return the declarative parse of the whole stream, so the cutting is invisible. |
| FrameStreams.ByteAtATimeAligned | nrf/src/usb_framer.rs:20-70 | Feeding byte by byte is always such a cutting. |
| FrameStreams.CallIsParseIff | nrf/src/usb_framer.rs:63-69 | One call agrees with the parse of all its bytes if and only if the bytes it drops hold no frame and no beginning of one. |
| FrameStreams.Feed | nrf/src/main.rs:584-597 | A framer object fed read after read, as the forwarder's loop does, returns exactly what the functional account of successive calls says, so the stream results above are about it. |
| FramePrinting.HeaderOnTheWire | nrf/src/usb_framer.rs:36-70 | Behind 0x94 0xC3 a big-endian length of 1 to 512 makes the bytes after it the payload, once they are there; any other length is skipped with its header. |
| FramePrinting.ParsePrinted | nrf/src/usb_framer.rs:36-70 | Parsing inverts printing for every list of payloads of 1 to 512 bytes, with anything behind. |
| FramePrinting.FrameIntactIff | nrf/src/usb_framer.rs:22-56 | Bytes without a frame leave the next frame intact if and only if their residue is empty or the lone first start byte. |
| FramePrinting.NoiseIsHarmless | nrf/src/usb_framer.rs:22-34 | Noise without a start pair, even ending in 0x94, is such. |
| FramePrinting.BadHeaderIsHarmless | nrf/src/usb_framer.rs:42-52 | So is a header of length zero or above 512, after such bytes. |
| FramePrinting.NoiseStaysHarmless | nrf/src/usb_framer.rs:22-34 | Noise behind such bytes is harmless again unless it completes a start pair with them. |
| FramePrinting.JunkBeforeFrame | nrf/src/usb_framer.rs:22-56 | After any interleaving of noise and malformed headers a well-formed frame is still delivered whole. |
| FramePrinting.FrameInPaddedReads | nrf/src/main.rs:580-597 | A frame read in whole 64-byte transfers, the last filled up with stale bytes, gives nothing before the last transfer, exactly the payload there, and an idle framer. |
| FramePrinting.StaleIsHarmlessIff | nrf/src/main.rs:586-590 | A buffer with arbitrary stale bytes behind a short read is taken as the read alone would be if and only if the read completes a frame or the stale bytes leave the residue as it is. |
| FramePrinting.ShortReadTakesStale | nrf/src/main.rs:586-590 | A read that stops inside a payload has its missing bytes filled up from the stale ones, and the mixture is delivered once it is long enough. |
| FramePrinting.ShortReadSpoilsFrame | nrf/src/main.rs:586-590 | After such a read the right payload is delivered if and only if the stale bytes happen to be the missing ones. |
| FramePrinting.SecondFrameInOneCallIsLost | nrf/src/main.rs:589-590 | Of two frames in one transfer only the first is returned, for all payloads. |
| UsbSender.SendPacketToUsb | nrf/src/main.rs:538-570 | A message that fits 256 encoded bytes is sent as header and 64-byte chunks, all of them if the port takes that many writes and otherwise as many as it takes; a longer one writes nothing. |
| UsbSender.WriteChunks | nrf/src/main.rs:564-566 | The chunk loop writes the pieces of the slice in order up to the first failing write. |
| UsbSender.WritesArePrinted | nrf/src/main.rs:551-566 | The writes put together are the printed frame, with no length truncated, and none is longer than 64 bytes. |
| UsbSender.SentFrameIsReadBack | nrf/src/main.rs:551-566 | A fresh framer given these writes returns nothing before the last and then the payload; an interrupted send delivers nothing. |
| UsbSender.CutSendIsPending | nrf/src/main.rs:551-566 | A send cut off partway delivers nothing and leaves exactly the bytes that got out, the whole header at least, unfinished with the reader. |
| UsbSender.SessionIsReadBack | nrf/src/main.rs:537-570 | Over a whole session every non-empty message arrives once, in order. |
| Names.WidthsAreUtf8 | meshtassy-net/src/node_database.rs:132-137 | A character counts as many bytes as UTF-8 takes for it: the width steps up exactly at U+80, U+800 and U+10000. |
| Names.StoreName | meshtassy-net/src/node_database.rs:131-137 | The loop stores the specified name. |
| Names.StoredIsGreedy | meshtassy-net/src/node_database.rs:132-137 | There is exactly one way to keep, of the first N characters, those that fit behind the ones kept before them, and the stored name is what it keeps. |
| Names.StoredUnchangedIff | meshtassy-net/src/node_database.rs:132-137 | A name is stored unchanged if and only if it has at most N bytes. |
| Names.StoredIdempotent | meshtassy-net/src/node_database.rs:132-137 | Storing a stored name changes nothing. |
| Names.AsciiIsCut | meshtassy-net/src/node_database.rs:132-137 | Of ASCII text the first N characters are stored. |
| Names.StoredIsPrefixIff | meshtassy-net/src/node_database.rs:132-137 | The stored name is a prefix of the given one if and only if none of the first N characters behind their longest front that fits would fit there; it then is that front. |
| Names.StoredNeedNotBePrefix | meshtassy-net/src/node_database.rs:132-137 | A name for which the result is not a prefix. |
| Nodes.UserFromProtobuf | meshtassy-net/src/node_database.rs:127-146 | Both names are stored with capacities 40 and 4, each equal to the given one exactly when its bytes fit; the other three fields are taken over. |
| Nodes.PositionFields | meshtassy-net/src/node_database.rs:150-161 | A stored position has the fields of the message, zero for an absent coordinate. |
| Nodes.MetricsFields | meshtassy-net/src/node_database.rs:164-182 | Telemetry gives metrics exactly if it is of the device-metrics variant, zero for each absent value. |
| Nodes.NodeFields | meshtassy-net/src/node_database.rs:185-203 | A node is stored under the sender's number, whatever number the message names, without metrics. |
| Nodes.OutgoingFields | nrf/src/main.rs:983-1067 | What is sent of a node, field by field, one hop away, with every stored value present. |
| Nodes.OutgoingRoundTrip | nrf/src/main.rs:983-1067 | A stored node sent out and converted back under its number is the same node without its device metrics. |
| Nodes.OutgoingMetricsRoundTrip | nrf/src/main.rs:1033-1042 | Its device metrics come back through a telemetry message. |
| Nodes.OutgoingInjective | nrf/src/main.rs:983-1067 | Different stored nodes have different outgoing forms. |
| NodeDatabases.NodeDatabase.constructor | meshtassy-net/src/node_database.rs:114-121 | A new database lists no nodes. |
| NodeDatabases.NodeDatabase.AddOrUpdateNode | meshtassy-net/src/node_database.rs:212-244 | Replaces the node of that number in its place, appends it while there is room, or changes nothing; occupied slots stay a counted prefix with distinct numbers. |
| NodeDatabases.NodeDatabase.UpdateNodeTelemetry | meshtassy-net/src/node_database.rs:246-261 | Changes the metrics of that node and nothing else. |
| NodeDatabases.NodeDatabase.UpdateNodeSignal | meshtassy-net/src/node_database.rs:263-287 | Changes signal and last-heard time of that node and nothing else. |
| NodeDatabases.NodeDatabase.GetNode | meshtassy-net/src/node_database.rs:290-299 | Looks the number up in the database read as a map. |
| NodeDatabases.NodeDatabase.GetNodeUser | meshtassy-net/src/node_database.rs:302-304 | The user of that node, if there is one. |
| NodeDatabases.NodeDatabase.GetNodeShortName | meshtassy-net/src/node_database.rs:307-314 | The stored short name if there is a non-empty one, else UNK. |
| NodeDatabases.NodeDatabase.GetNodes | meshtassy-net/src/node_database.rs:317-319 | All nodes, in slot order. |
| NodeDatabases.NodeDatabase.AddOrUpdateNodeFromPacket | meshtassy-net/src/node_database.rs:321-431 | Writes what a packet says into the sender's node and returns true; an undecodable packet of the three decoded kinds changes nothing and returns false. |
| NodeDatabases.AcceptedIff | meshtassy-net/src/node_database.rs:335-417 | A packet is refused exactly if it is node info, position or telemetry and its decoder gives nothing. |
| NodeDatabases.PacketIsWrittenIn | meshtassy-net/src/node_database.rs:333-431 | By port and decoder alone: node info sets the user (names of 40 and 4 bytes), a position packet the position, device telemetry the metrics, everything accepted the signal; no other field and nobody else's node changes. |
| NodeDatabases.UpsertIsBoundedUpdate | meshtassy-net/src/node_database.rs:212-244 | The update is a map update which a full map refuses for new numbers. |
| NodeDatabases.LookupUpsert | meshtassy-net/src/node_database.rs:212-244 | What a lookup of any number finds after an update. |
| NodeDatabases.AcceptedIsStoredIff | meshtassy-net/src/node_database.rs:321-431 | After a packet reported as handled its sender is stored if and only if it was before or there was room. |
| NodeHistory.FoldIsDescribed | meshtassy-net/src/node_database.rs:321-431 | After any history the database is the first fifty accepted senders in order, each with the user, position and metrics of the last packet on that port its decoder understood, the signal of its last accepted packet, and last-heard zero. |
| NodeHistory.FullDatabaseRefuses | meshtassy-net/src/node_database.rs:234-243 | After any history that filled the database, a packet of anyone not in it changes nothing. |
| NodeHistory.CrowdFillsDatabase | meshtassy-net/src/node_database.rs:234-243 | Such a history exists, whatever the decoders: fifty senders fill the database, and the fifty-first is accepted and not stored. |
| NodeHistory.NodesStayInPlace | meshtassy-net/src/node_database.rs:230-243 | Nothing is ever evicted or moved, and a full database keeps its numbers for good. |
| NodeHistory.FoldWellFormed | meshtassy-net/src/node_database.rs:212-244 | At most fifty nodes with distinct numbers after every history. |
| NodeHistory.SameMembersSameNodes | meshtassy-net/src/node_database.rs:321-431 | Two histories with the same members and the same packets from each of them give the same database, however they interleave. |
| Headers.ToBytes | meshtassy-net/src/header.rs:121-131 | Destination, source and packet id are written least significant byte first, then flags, channel hash, next hop and relay node; the sixteen bytes read back as the header with its hop fields cut to three bits. |
| Headers.HeaderLayout | meshtassy-net/src/header.rs:91-118 | Which byte of a header is which field, and which bit of its flags. |
| Headers.HeaderRoundTrip | meshtassy-net/src/header.rs:91-131 | The same, for the byte function. |
| Headers.BytesRoundTrip | meshtassy-net/src/header.rs:91-131 | Any sixteen bytes read and written back are unchanged. |
| Headers.FlagsRoundTrip | meshtassy-net/src/header.rs:197-221 | Flags survive unchanged if and only if both hop fields are at most 7. |
| Headers.CreateIv | meshtassy-net/src/header.rs:138-153 | Bytes 0 to 7 of the block are the packet id and 8 to 11 the source, least significant first; the last four are zero. |
| Headers.CreateIvWithParams | meshtassy-net/src/header.rs:164-170 | The same over the full 64-bit range of packet ids. |
| Headers.IvInjective | meshtassy-net/src/header.rs:138-153 | Its first twelve bytes determine packet id and source. |
| CounterMode.CtrByte | meshtassy-net/src/key.rs:184-198 | Byte k of block j is masked by byte k of the block function at the j-th counter value. |
| CounterMode.CtrInvolutive | meshtassy-net/src/key.rs:186-188 | Counter mode is its own inverse for every block function, counter and length. |
| CounterMode.ApplyKeystream | meshtassy-net/src/key.rs:187-196 | The running-counter loop over a sub-slice is the block-wise definition, and touches nothing else. |
| CounterBlocks.IvValue | meshtassy-net/src/header.rs:138-153 | The block read as a big-endian number is a multiple of 2^32 with room for 2^32 increments. |
| CounterBlocks.BlockValue | meshtassy-net/src/key.rs:187-196 | Counting never carries out of the last four bytes. |
| CounterBlocks.BlocksDistinct | meshtassy-net/src/lib.rs:178-217 | Two counter blocks coincide if and only if packet id, source and position all do. |
| Keys.KeyExpansion | meshtassy-net/src/key.rs:105-162 | The default key, the default key with its last byte replaced, or a raw key of 16 or 32 bytes as it is; AES-256 for 32 bytes and AES-128 otherwise, under those bytes. |
| Keys.KeyTypesAgree | meshtassy-net/src/key.rs:70-162 | Both key types accept exactly the lengths 0, 1, 16 and 32, expand a raw key to the same bytes, and transform all data alike. |
| Keys.MeshKey.Transform | meshtassy-net/src/key.rs:47-66 | Empty data is an error that changes nothing; else the sub-slice is transformed in place and the rest kept. |
| Keys.ChannelKey.Transform | meshtassy-net/src/key.rs:165-212 | The same for channel keys. |
| Keys.TransformsInvolutive | meshtassy-net/src/key.rs:164-212 | Either key type undoes its own transform. |
| Packets.PacketFromBytes | meshtassy-net/src/lib.rs:140-173 | None below sixteen bytes; else the header, the readings and up to 240 bytes after it in a zeroed buffer. |
| Packets.Decrypt | meshtassy-net/src/lib.rs:178-217 | Fails exactly on an empty payload; else the payload in counter mode under the header's own block, zero behind it. |
| Packets.Decode | meshtassy-net/src/lib.rs:222-277 | Fails exactly on an empty or undecodable payload; else every field of the decoded message and the first 240 bytes of its payload under the same header and readings. |
| Packets.OwnedFromProtobuf | meshtassy-net/src/lib.rs:59-79 | Every field of the message is taken over; the owned payload is its first 240 bytes, all of it exactly when it has no more. |
| TextMessages.CreateTextMessagePacket | nrf/src/main.rs:440-520 | A text-port message with no answer wanted, zero numbers and a zero bit field is encoded; it succeeds exactly when that encodes to 1 to 240 bytes and the key length is known; then the length is 17 to 256 and the buffer starts with the air frame, otherwise unchanged; on failure the buffer is unchanged, except for the header if the encoding is empty. |
| TextMessages.HandleReceivedPacket | nrf/src/main.rs:351-403 | What is published is what parsing, decrypting with key 0x01 and decoding give. |
| TextMessages.ReadingKeptIff | nrf/src/main.rs:375 | A radio reading becomes the signed byte congruent to it modulo 256, so it survives if and only if it fits one; -129 arrives as 127. |
| TextMessages.DecipheredAirFrame | meshtassy-net/src/lib.rs:140-217 | Parsing and decrypting an air frame gives back the header (unchanged exactly if the hop fields are at most 7) and exactly the payload, zero behind it. |
| TextMessages.DataIsReceived | nrf/src/main.rs:351-403 | Any data message on the air is received with every header field (hop counts cut to three bits), every field of the message and the first 240 bytes of its payload, if the decoder undoes its encoding of 1 to 240 bytes. |
| TextMessages.TransmitThenReceive | nrf/src/main.rs:440-520 | With the same key the text arrives whole, on the text port with no answer wanted and zero numbers, if the decoder undoes the encoder on it. |
| TextMessages.SelfTest | nrf/src/main.rs:258-292 | The boot-time test packet is received as that text message, with readings -50 and 10. |
| ChannelHashes.ComputeXorHash | meshtassy-net/src/channel.rs:19-25 | The loop computes the exclusive or of all bytes. |
| ChannelHashes.XorHashAppend | meshtassy-net/src/channel.rs:19-25 | The hash is a homomorphism over concatenation. |
| ChannelHashes.XorHashPermutation | meshtassy-net/src/channel.rs:19-25 | It depends only on the multiset of bytes. |
| ChannelHashes.GenerateChannelHash | meshtassy-net/src/channel.rs:49-66 | None for the empty name; else the hash of name and expanded key together. |
| ChannelHashes.OneByteKeysHashApart | meshtassy-net/src/channel.rs:49-66 | Under any name two one-byte keys collide only if equal; key 0x01 expands as the empty key does. |
| ChannelHashes.LongFastHash | meshtassy-net/src/channel.rs:45-47 | The documented value 0x08. |
| ChannelHashes.ComputeDjb2 | meshtassy-net/src/lib.rs:332-338 | The wrapping loop computes the base-33 polynomial seeded with 5381, modulo 2^32. |
| ChannelHashes.Djb2Examples | meshtassy-net/src/lib.rs:332-338 | The hashes of the empty name and of "a". |
| ChannelHashes.HornerSplit | meshtassy-net/src/lib.rs:332-338 | The polynomial of a concatenation in closed form. |
| ChannelHashes.SuffixCancels | meshtassy-net/src/lib.rs:332-338 | A common suffix can be cancelled. |
| ChannelHashes.OneByteApart | meshtassy-net/src/lib.rs:332-338 | Names differing in one byte never collide. |
| ChannelHashes.TwoBytesApart | meshtassy-net/src/lib.rs:332-338 | Names differing in two neighbouring bytes collide exactly when 33 times the first difference cancels the second. |
| PacketIds.PacketIdCounter.GetNextPacketId | nrf/src/main.rs:786-793 | The n-th draw, from zero, is 1 + n mod 0x7FFFFFFF. |
| PacketIds.NthIdClosedForm | nrf/src/main.rs:786-793 | The counter in closed form. |
| PacketIds.IdsDistinct | nrf/src/main.rs:789-791 | Any 0x7FFFFFFF consecutive draws are distinct, and one period apart they repeat. |
| ConfigAnswers.AnswerConfigRequest | nrf/src/main.rs:612-662 | Writes the whole canonical burst, each message under the next id, or stops at the first failing send with everything before it written and that id used up. |
| ConfigAnswers.SendListing | nrf/src/main.rs:626-640 | The loop sends every listed node but the device's own, in slot order. |
| ConfigAnswers.HostReadsAnswer | nrf/src/main.rs:612-662 | A host framer that is idle when the burst begins reads it message by message, after whatever it read before. |
| TaskInvariants.ChannelKept | nrf/src/main.rs:40-41 | The channel never holds more than eight entries, and a live subscriber is behind its window only while it is full. |
| TaskInvariants.DeliveryKept | nrf/src/main.rs:73-84 | Every step keeps the account of delivered and missed packets. |
| TaskInvariants.LockKept | nrf/src/main.rs:626-709 | The database lock is held across a wait by the forwarder alone, and exactly while it sends what it looked up there. |
| TaskInvariants.DatabaseKept | nrf/src/main.rs:86-91 | Every step keeps the database equal to the fold of the packets applied. |
| TaskInvariants.SentNodesKept | nrf/src/main.rs:695-708 | Every step keeps each node sent, being sent or still to be sent traceable to one state of the database. |
| TaskAnswers.AnswersKept | nrf/src/main.rs:612-662 | Every step keeps every answer a gap-free beginning of its burst. |
| TaskAnswers.ListedKept | nrf/src/main.rs:626-640 | Every step keeps each listing equal to the database after some prefix of the deliveries. |
| TaskForwards.ForwardKept | nrf/src/main.rs:678-742 | Every step keeps the account of packets received and sends they caused, and each such send what the packet called for. |
| TaskHost.HostKept | nrf/src/main.rs:538-570 | Every step keeps the sends since the forwarder connected those among the events on its port, each successful exactly if all its writes were taken. |
| TaskHost.WholeEventsAreRead | nrf/src/main.rs:538-570 | Events none of which was cut off partway give a reader the messages sent, once each, in order. |
| TaskTheorems.RunKeepsInv | nrf/src/main.rs:73-92 | The eleven invariants of channel, deliveries, lock, database, ids, connection, sent nodes, answers, listings, forwards and host hold together after every run, in every interleaving. |
| TaskTheorems.DatabaseIsFoldOfDeliveries | nrf/src/main.rs:73-92 | After every run the database is the fold of the delivered packets but at most the one in hand, hence what their history describes; before it exists nothing was published or delivered. |
| TaskTheorems.DeliveriesAreAccountedFor | nrf/src/main.rs:77-84 | Delivered packets are published ones in order, delivered plus missed is everything passed, and the processor lags exactly when more than eight behind. |
| TaskTheorems.SendsUseIdsInOrder | nrf/src/main.rs:786-793 | Over every run the n-th send attempt carries the n-th id. |
| TaskTheorems.SentNodesWereStored | nrf/src/main.rs:695-708 | Every node sent is what the deliveries up to some point say of that number, and was a member then. |
| TaskTheorems.ForwardsAreAccountedFor | nrf/src/main.rs:678-742 | The forwarder receives entries of the log in order, received plus missed is everything passed, it lags exactly when more than eight behind, and each packet received on the position, telemetry, text, routing, traceroute or neighbour port, or on the node-info port from a sender then stored, has caused exactly one send, in order, but for the one in hand; no other has. |
| TaskTheorems.ForwardsAreWhatWasDue | nrf/src/main.rs:689-742 | What was sent for a packet of those six ports is itself, for node info its sender's node as the database then had it; no radio packet is sent otherwise, and sends follow the order of publication, over any number of connections. |
| TaskTheorems.AnswersAreCanonical | nrf/src/main.rs:612-662 | Each request is answered by a beginning of its canonical burst, all of it when finished, ended only by a failed send, and answers do not overlap; whatever comes behind the greeting comes with the listing of one state of the database. |
| TaskTheorems.AnswersListTheDatabase | nrf/src/main.rs:612-662 | A finished answer is own info and own node, then each node that one prefix of the deliveries put into the database, but for 0xDEADBEEF, exactly once, in slot order, at most fifty, then config, module config, channel and the closing message with the id asked for. |
| TaskTheorems.TryLockNeverFails | nrf/src/main.rs:626-627 | In no run does the forwarder find the database locked or missing when it tries it. |
| TaskTheorems.NoForwardInsideAnswer | nrf/src/main.rs:612-662 | No forwarded radio packet falls inside an answer. |
| TaskTheorems.DatabaseFrozenWhileListing | nrf/src/main.rs:626-640 | During a listing the forwarder holds the database, the processor cannot write to it, and it still is what is being listed. |
| TaskTheorems.ListedExactlyOnce | nrf/src/main.rs:631-638 | A listing names each node but 0xDEADBEEF exactly once and nothing else. |
| TaskTheorems.ListedInSlotOrder | nrf/src/main.rs:631-638 | And in slot order. |
| TaskTheorems.HostReadsConnection | nrf/src/main.rs:678-742 | As long as no send of a connection was cut off partway, the host reads the messages sent on it once each, in order, through failed sends and lag notices. |
| TaskTheorems.HostKeepsUpIff | nrf/src/main.rs:703-737 | Whatever comes next, the frame behind it is read where it stands if and only if it was not cut off partway. |
| TaskTheorems.HostReadsFinishedAnswer | nrf/src/main.rs:612-662 | A finished answer on such a connection reaches the host as the messages of its burst, under the ids it drew and with nothing between them. |
| TaskTheorems.AnswerCanFinish | nrf/src/main.rs:612-662 | From every reachable state with an answer underway whose items can be encoded the forwarder alone can complete it. |
| TaskReactions.DataOnAirIsPublished | nrf/src/main.rs:351-403 | In every state any data message on the air under key 0x01 becomes one more packet of the channel with all its fields and readings, if anyone is subscribed; a full channel drops its oldest for it. |
| TaskReactions.TextOnAirIsPublished | nrf/src/main.rs:351-403 | From every reachable state a text on the air appends its very text to the channel as a text message, if anyone is subscribed. |
| TaskReactions.UnreadableIsDropped | nrf/src/main.rs:373-398 | A frame that does not parse, decrypt or decode, as every one of at most sixteen bytes, changes nothing. |
| TaskReactions.SixKindsAreTaken | nrf/src/main.rs:712-717 | A packet on one of the six ports is taken in hand as it is. |
| TaskReactions.SixKindsReachThePort | nrf/src/main.rs:731-737 | And reaches the port as a printed frame under the next id, if it can be encoded and its writes are taken. |
| TaskReactions.OtherKindsArePassedOver | nrf/src/main.rs:743-745 | A packet on a port of no known use sends nothing. |
| TaskReactions.NodeInfoIsLookedUp | nrf/src/main.rs:691-711 | For node info the sender's node is taken in hand with the database locked if it is stored, and nothing otherwise. |
| TaskReactions.LagIsNoticed | nrf/src/main.rs:682-686 | A forwarder that lagged writes the notice and goes on with the oldest packet left. |
| TaskReactions.LaggingProcessorGoesOn | nrf/src/main.rs:77-84 | A processor that lagged goes on with the oldest packet left, having missed exactly those before it. |
| TaskReactions.SubscribersStartAtTheEnd | nrf/src/main.rs:575-582 | A new subscriber receives what is published from then on; a new connection has an idle framer and a zeroed buffer. |
| TaskReactions.ReadIsHandled | nrf/src/main.rs:586-676 | After any read the framer gets the bytes read with the stale ones behind them; a message found is answered if it asks for the configuration, ignored if it is a heartbeat or not supported, and ends the connection if it does not decode. |
| TaskReactions.MessageInOneTransfer | nrf/src/main.rs:586-676 | A message of up to 60 bytes in one transfer is so handled on the spot, whatever stale bytes fill the buffer. |
| TaskReactions.RequestStartsAnswer | nrf/src/main.rs:586-620 | A request frame that fits one transfer starts its answer, whatever stale bytes fill the buffer. |
| TaskReactions.FailedAnswerDisconnects | nrf/src/main.rs:612-662 | A send in an answer that is not complete ends answer and connection and frees the database. |
| TaskReactions.FailedForwardKeepsConnection | nrf/src/main.rs:703-737 | A send outside an answer, failed or not, keeps the connection and leaves the database free. |

## Left out

- AES itself and the cipher crates: the block function is a parameter.
- Protobuf wire format: encoders and decoders are parameters, and only the fields the code reads or varies are kept.
- Floating-point values: signal and metric fields are only copied, or converted from a signed byte, and are reals here; non-finite values are not represented.
- Executor, USB driver, mutex and channel internals: their documented behaviour is assumed as listed above; freeing an entry that all subscribers have read is a step of its own, so every real timing of it is covered.
- What a host reads behind a send that was cut off partway: only that the next frame is not read where it stands, and what `CallsParseKeptStream` says of any stream.
- Liveness beyond `AnswerCanFinish`: nothing is assumed about fairness of the executor.
- Radio set-up, LEDs, board files, sensors, logging, `parse_key` and `validate_packet_structure`: single-branch or input/output code.
- The rp variant of the firmware: its framer is the same file and its protocol logic the same code.
- `create_text_message_packet` also builds a decrypted packet it never uses; that value has no effect and is not modelled.
- Keys.ChannelKeyFromBytes: called with a length that would index or copy out of range the source panics; such calls are excluded by its precondition.
