# The Aether transport: a verified model

This project models the transport core of the Aether protocol (the Rust crate
`aether-core`) and proves what its parts promise, alone and together:

- **The wire format** (`Framing.dfy`, `WireLayouts.dfy`, `UnknownExtensions.dfy`):
  bit-packed short and long headers, the TLV extension chain, whole frames. Which frames
  survive encoding and decoding, where every field stands, which byte strings are
  accepted and what they decode to, and what becomes of extensions of unknown types.
- **Streams and reassembly** (`Streams.dfy`, `Lifecycles.dfy`, `ReadRuns.dfy`, `FlowRuns.dfy`,
  `Connections.dfy`, `Reassembly.dfy`, `Splices.dfy`, `ReassemblyRuns.dfy`): the
  chunking loop of the sender, the receive buffer that is sorted, walked and drained, flow-control
  accounting, and the path from the sender's data to the reader's bytes through encoded
  frames that are lost, repeated, reordered and mixed with those of other transfers.
- **Stream tables** (`StreamManagers.dfy`, `StreamIds.dfy`): ids handed out by
  parity at two endpoints, and the limit on streams.
- **The handshake** (`Hellos.dfy`, `Handshakes.dfy`, `HandshakeRuns.dfy`): the hello
  codecs, both sides' state, and whole runs in which honest steps are interleaved
  with messages that are rejected.
- **Multiple paths** (`Multipath.dfy`, `PathRuns.dfy`): path validation by challenge
  and response over a bad network, path ids, round-trip smoothing, the best path.
- **Congestion control** (`Congestion.dfy`, `CongestionRuns.dfy`): the Aether-CC
  controller against the full history of acknowledgements.

The objects that the crate updates in place (`Stream`, `FlowControl`,
`StreamManager`, `HandshakeContext`, `PathManager`, `CongestionController`, and the
sending half of `Connection`) are classes, and encoders push into a mutable
buffer. Each of their methods is proved to compute a function of the old state;
the theorems about runs and about two communicating endpoints are proved of those
functions. Cryptography is a record of functions (`Handshakes.Suite`) of which only
two laws are used: key agreement commutes, and what an identity signs verifies
under its key (`Handshakes.LawsAreConsistent` gives a suite that has both). Random ids, nonces, ephemeral secrets and clock readings are
arguments. Integers have the crate's widths, and wrap where its release builds wrap.

## Where the code falls short of its documentation

These are modelled as the code has them, each with its exact condition (files named
without a directory are in `aether-core/src`):

- A read starts again at offset 0 every time (`stream.rs:204-211`), and no later read
  goes on from where it stopped. When every chunk arrives once, all reads together
  give the data if and only if the first of them to find chunk 0 comes after every
  chunk has arrived, and has room for the last (`ReassemblyRuns.ReadsTogetherIff`;
  `ReadRuns.EarlyReadLosesTheRest` is a run that loses data).
- A chunk that arrives twice stops the read after its first copy. A read returns
  everything if and only if every chunk arrived, none but the last twice, and it has
  room beyond where the last one starts (`Reassembly.WholeDataIff`).
- Every transfer on a stream starts at offset 0 (`connection.rs:362-363`), so the chunks
  of several mix. A read returns the first arrivals along the 1376-byte grid, whosever
  they are (`ReassemblyRuns.ReadsMix`; `TwoTransfersMix` is a result that nobody sent). It
  gives one transfer's data if and only if at each of its grid positions its bytes came
  first, and alone but for the last, with room for the last and nothing that continues it
  (`ReassemblyRuns.TransferComesOutIff`). Transfers on different streams do not disturb
  each other (`ReassemblyRuns.StreamsReassembleApart`).
- `add_extension` on a long frame sets only one of two copies of the E bit
  (`framing.rs:438`, `framing.rs:329`), so such a frame never survives its own encoding
  (`Framing.ExtendedLongFrameNeverRoundTrips`); exactly the coherent frames do
  (`Framing.RoundTripIffCoherent`).
- Unknown extension types are read as the terminator (`framing.rs:173`), although
  a comment says that they are ignored (`framing.rs:135`). They are ignored if and only
  if there are none, or none but unknown ones follow the first and the payload happens
  to begin the bytes after that one (`UnknownExtensions.IgnoredIff`;
  `UnknownExtensions.UnknownExtensionCorruptsPayload` is an input that fails).
- The hello decoders index past short inputs. The lengths at which that can happen
  are exactly 80 to 383 for the client hello and up to 65671 for the server hello
  (`Hellos.ClientHelloPanicLengths`, `Hellos.ServerHelloPanicLengths`).
- A ServerHello becomes part of the transcript before the keys are derived
  (`handshake.rs:546-550`), and that fails when our secret is used up or not yet there. The
  two sides agree on transcript, key and capabilities if and only if no rejected
  ServerHello passed the proof check (`HandshakeRuns.Agreement`). One that does can come
  from any identity, since the key to check the proof with comes with the message
  (`HandshakeRuns.UsedUpSecretSpoils`); none that comes while the client waits for the
  honest one does (`HandshakeRuns.AwaitedRejectionsAreSafe`).
- A ServerHello takes over the peer's id, key and identity before its proof is
  checked (`handshake.rs:525-531`). When both sides agree, the client's record of its peer
  is right if and only if no rejected ServerHello that arrived after the accepted one
  claimed otherwise (`HandshakeRuns.Agreement`); one such message without any proof is
  enough to falsify it (`HandshakeRuns.LateServerHelloMisleads`).
- Handlers of handshake messages do not look at the state. A Finished that comes again
  changes nothing (`HandshakeRuns.DuplicateFinishedIsHarmless`); a ClientHello that comes
  again always ends the agreement (`HandshakeRuns.DuplicateClientHelloRekeys`).
- Write offsets are 32-bit and windows 64-bit: writes tile the stream if and only if
  the window fits in 32 bits (`FlowRuns.TilesIffWindowFits`).
- The 8-bit path counter wraps: new path ids are always fresh if and only if at most
  256 paths are allowed (`PathRuns.FreshIffAtMost256`).
- The handler of path responses does not look at the type of the frame
  (`multipath.rs:151-183`). Active paths have been answered, over every run, if and only
  if no PathChallenge frame is handed to it (`PathRuns.SafeIffNoChallenges`); a
  challenge that comes back to its sender is enough (`PathRuns.OwnChallengeActivates`).
- Three times the least round trip is a 64-bit product, and before any acknowledgement the
  least round trip is the greatest number there is (`congestion.rs:63`, `congestion.rs:134`).
  A loss then counts as congestion at any round trip but the two greatest
  (`CongestionRuns.FirstLossCongests`).
- A stream whose reading half has been closed can no longer be written to
  (`stream.rs:52-54`), so the end of one direction ends the other
  (`Lifecycles.UsableIff`).
- The limit on streams binds the side that opens, not the side that accepts
  (`stream.rs:306-317`): a table never holds more streams of its own than the limit, and
  never more in all if it has accepted none (`StreamIds.StreamsAreLimited`).
- A tenth of less than ten bytes is nothing (`CongestionRuns.StartupGrowsIff`). Some number
  of acknowledgements takes every run out of startup, with a known bandwidth and a
  product of at most some bound, if and only if the window starts at ten bytes or more, or
  as wide as the bound (`CongestionRuns.StartupEndsIff`).
- The bandwidth-delay product stays within the largest acknowledgement, the next one
  included, whatever that is, if and only if no bandwidth is known or some sample still recent
  is fast enough for the best rate (`CongestionRuns.BdpStaysIff`). It does as long as the
  sample that set the bandwidth is recent (`CongestionRuns.BdpBound`);
  `CongestionRuns.BdpOutgrowsAgedSamples` is a history that exceeds it.

Two differences from the specification (`spec/aether-v0.1.md`, section 3) concern what
is there at all: in the code the server sends its Finished first (`connection.rs:211-218`,
`connection.rs:255-263`), and there is no Kyber exchange.

## Model

| member | source | states |
|---|---|---|
| Framing.FrameTypeFrom | aether-core/src/framing.rs:72-86 | the six low-order bits name a frame type if and only if they are below 10, and each value its own |
| Framing.ExtTypeFrom | aether-core/src/framing.rs:126-138 | known extension codes are read back to themselves; every other code becomes the terminator |
| Framing.HeaderBits | aether-core/src/framing.rs:211-256 | the masks and shifts of the first two header bytes, in both directions, over all bytes and both flags, equal the arithmetic used in this model |
| Framing.StreamIdBits | aether-core/src/framing.rs:219-265 | the same of the 32-bit stream id, split into two high bits and sixteen low ones and put together again |
| Framing.WriteHeader | aether-core/src/framing.rs:210-236 | appends exactly the 16 header bytes to the buffer and nothing else |
| Framing.WriteExtension | aether-core/src/framing.rs:159-164 | appends type, 24-bit length and value |
| Framing.WriteChain | aether-core/src/framing.rs:461-468 | the loop appends every extension in order and then one terminator |
| Framing.WriteFrame | aether-core/src/framing.rs:451-474 | the encoder writes the frame's wire image |
| Framing.DecodeExtension | aether-core/src/framing.rs:167-184 | an accepted extension takes at least 4 bytes, never more than there are, and exactly 4 more than its value |
| Framing.ReadChain | aether-core/src/framing.rs:501-519 | the extension loop terminates on any bytes, stays in bounds, and finds the chain and the offset after its terminator |
| Framing.ReadBody | aether-core/src/framing.rs:542-577 | extensions and length-delimited payload are read from the given offset, with the same errors in both branches |
| Framing.ReadFrame | aether-core/src/framing.rs:477-579 | the decoder, on any bytes, in bounds: the H bit picks the branch, and long headers are refused for types that must be short |
| Framing.HeaderRoundTrip | aether-core/src/framing.rs:210-279 | a header with a 4-bit version and an 18-bit stream id is read back from its 16 bytes, whatever follows, and the H bit with it |
| Framing.LongRoundTrip | aether-core/src/framing.rs:322-364 | the same of the 24-byte long header |
| Framing.ExtensionRoundTrip | aether-core/src/framing.rs:159-184 | an extension with a value under 2^24 bytes is read back and its size reported, whatever follows |
| Framing.ChainRoundTrip | aether-core/src/framing.rs:461-519 | a chain of such extensions, none a terminator, is read back whole, whatever ends it |
| Framing.WireSizeIsLength | aether-core/src/framing.rs:582-594 | wire_size is the length of the encoding, of any frame at all |
| Framing.FrameRoundTrip | aether-core/src/framing.rs:451-579 | a coherent frame is decoded from its encoding followed by any junk |
| Framing.ChainIsNormal | aether-core/src/framing.rs:501-519 | an accepted chain holds no terminator and no value over 24 bits, and its canonical form is no longer than what was read |
| Framing.DecodeYieldsNormalForm | aether-core/src/framing.rs:477-594 | whatever is accepted is coherent, decodes from its own encoding, and that encoding has length wire_size, at most that of the input |
| Framing.RoundTripIffCoherent | aether-core/src/framing.rs:451-579 | a frame survives encoding and decoding if and only if it is coherent, whatever follows it |
| Framing.SelfDelimiting | aether-core/src/framing.rs:451-579 | two coherent frames whose encodings begin the same bytes are the same frame, with the same rest: encoding is injective and prefix-free |
| Framing.ExtendedLongFrameNeverRoundTrips | aether-core/src/framing.rs:322-448 | no long frame, on any stream, that was given an extension decodes to itself |
| WireLayouts.Codes | aether-core/src/framing.rs:47-123 | the ten frame types and the six extension types are numbered from 0 in the order in which they are listed |
| WireLayouts.BigEndian | aether-core/src/framing.rs:222-233 | byte i of an n-byte field is the number divided by 256^(n-1-i), modulo 256 |
| WireLayouts.HeaderLayout | aether-core/src/framing.rs:210-236 | the bits and bytes of a header in which version, type, both flags, stream id, offset, length and connection id stand |
| WireLayouts.ExtensionLayout | aether-core/src/framing.rs:159-164 | type number, length in three big-endian bytes, value |
| WireLayouts.FrameLayout | aether-core/src/framing.rs:451-474 | a header, the source id in bytes 16 to 24 if it is long, the extensions and four zero bytes if it says so, and the payload at the end |
| WireLayouts.AddedGoesLast | aether-core/src/framing.rs:437-440 | an added extension goes out after those that are there, and the payload and a long header stay what they were |
| WireLayouts.HeaderAccepted | aether-core/src/framing.rs:239-279 | sixteen bytes are a header if and only if their six type bits are below 10, and its fields are then what stands there |
| WireLayouts.FrameAccepted | aether-core/src/framing.rs:477-579 | any bytes are refused, always as a protocol violation, if and only if the header is short or of unknown type, has the long bit set for other types than Initial and Handshake, or has a chain or a payload that does not end; the frame is otherwise what stands in its places, and what follows is ignored |
| UnknownExtensions.DecodesUpToUnknown | aether-core/src/framing.rs:167-184 | a frame with extensions of any types is always accepted, with the known extensions before the first unknown one, and with whatever bytes follow that one as its payload |
| UnknownExtensions.IgnoredIff | aether-core/src/framing.rs:126-138 | decoding gives just the known extensions and the payload, as if the unknown ones were ignored, if and only if none is unknown, or none but unknown ones follow the first and the payload begins the bytes after it |
| UnknownExtensions.UnknownExtensionCorruptsPayload | aether-core/src/framing.rs:172-184 | an unknown extension of no length turns a payload of the byte 1 into one of the byte 0 |
| Streams.FlowControl.constructor | aether-core/src/stream.rs:82-89 | a fresh flow: the full window granted, nothing sent or received |
| Streams.FlowControl.CanSend | aether-core/src/stream.rs:92-94 | yes if and only if the reservation it stands before leaves the sent offset within what was granted |
| Streams.FlowControl.ReserveSend | aether-core/src/stream.rs:97-101 | hands out the old offset cut to 32 bits and moves on by the length |
| Streams.FlowControl.UpdateWindow | aether-core/src/stream.rs:104-108 | the granted offset only ever rises |
| Streams.FlowControl.Received | aether-core/src/stream.rs:111-116 | the received offset becomes the greater of itself and the end of the data |
| Streams.Stream.constructor | aether-core/src/stream.rs:141-149 | an open stream with an empty buffer and a fresh flow of its own |
| Streams.Stream.CloseWrite | aether-core/src/stream.rs:152-158 | the local half closes; with the remote half closed already the stream is closed |
| Streams.Stream.CloseRead | aether-core/src/stream.rs:161-167 | the remote half closes; with the local half closed already the stream is closed |
| Streams.Stream.Write | aether-core/src/stream.rs:170-185 | refused without effect unless open and within the window; otherwise the reserved offset |
| Streams.Stream.ReceiveData | aether-core/src/stream.rs:233-237 | keeps the fragment, whatever it overlaps, and counts its end |
| Streams.Stream.Read | aether-core/src/stream.rs:188-230 | returns the contiguous data from offset 0 of the sorted buffer and drains exactly the fragments it came from |
| Streams.TakeContiguous | aether-core/src/stream.rs:209-224 | the read loop consumes the walked fragments and returns their bytes in order |
| Streams.StableSortSorts | aether-core/src/stream.rs:201 | the sorted buffer is ordered by offset and a permutation of the buffer |
| Streams.StableSortIsStable | aether-core/src/stream.rs:201 | fragments at the same offset stay in order of arrival |
| Streams.StableSortIsUnique | aether-core/src/stream.rs:201 | two sorted buffers that agree at every offset are equal, so any stable sort is this one |
| Lifecycles.StateSays | aether-core/src/stream.rs:151-167 | over any closes of either half in any order, repeated or not, the state is the one that names the halves closed |
| Lifecycles.UsableIff | aether-core/src/stream.rs:50-60 | over any closes: a write is refused for its state if and only if either half was closed, and succeeds if and only if none was and the window holds it; a read is refused if and only if the reading half was closed and nothing is held |
| ReadRuns.ReadConserves | aether-core/src/stream.rs:201-229 | one read: the fragments taken and those kept are the multiset held before, and the bytes returned are those of the taken ones |
| ReadRuns.RunsConserve | aether-core/src/stream.rs:188-237 | over any run of arrivals, reads and closes, the fragments taken and those left are exactly those that arrived |
| ReadRuns.ReadsArePrefixes | aether-core/src/stream.rs:188-237 | if every fragment is a slice of one byte string at its offset, every read of every run returns a prefix of that string |
| ReadRuns.DeliveriesNeedStarts | aether-core/src/stream.rs:203-229 | in every run, reads that return data are no more than the fragments that arrived at offset 0 |
| ReadRuns.ReadsTogetherArePrefix | aether-core/src/stream.rs:188-237 | with one fragment at offset 0, at most one read returns data and all reads put together are a prefix of what was sent |
| ReadRuns.DisjointReadsArePrefix | aether-core/src/stream.rs:188-237 | with disjoint nonempty fragments, the concatenation of all reads of a run is a prefix of what was sent |
| ReadRuns.NothingAfterTheStart | aether-core/src/stream.rs:204-215 | without a fragment at offset 0 no run ever returns a byte, however much arrives |
| ReadRuns.ReadDeliversIff | aether-core/src/stream.rs:194-229 | any buffer, empty fragments included: a read with room returns data if and only if a fragment at offset 0 that is not empty is held; one without room, if and only if the first to have arrived at offset 0 is not empty |
| ReadRuns.SecondStartStops | aether-core/src/stream.rs:201-224 | with two fragments at offset 0 a read returns exactly the first to have arrived, whatever its room |
| ReadRuns.EarlyReadLosesTheRest | aether-core/src/stream.rs:188-237 | for any data in two parts: read after each arrives, the first part is all that ever comes out |
| Connections.Connection.SendFrame | aether-core/src/connection.rs:302-323 | an active connection sends the encoding of the frame; any other sends nothing and fails |
| Connections.Connection.SendStreamData | aether-core/src/connection.rs:354-374 | an active connection sends one datagram per chunk, and each of them decodes to a short Data frame of version 0 with the peer's connection id, or our own when there is none, the stream's id, and the data's bytes from 1376 i on; any other connection sends nothing and fails, unless the data is empty |
| Connections.DatagramsSay | aether-core/src/connection.rs:362-370 | chunk i, on any stream id of 18 bits, toward any connection id: what its datagram decodes to, and that it is at most 1392 bytes long |
| Connections.TransferSays | aether-core/src/connection.rs:354-374 | the same of all datagrams of a transfer, which are as many as there are chunks |
| Connections.ChunkCountIsLeast | aether-core/src/connection.rs:359-360 | there are the fewest chunks of 1376 bytes that hold the data |
| Reassembly.PieceArrives | aether-core/src/connection.rs:362-370 | the encoded frame of a chunk decodes to exactly that chunk at its offset |
| Reassembly.ReadPieces | aether-core/src/stream.rs:188-230 | what one read returns, takes and keeps of any buffer that holds the arrived chunks, in whatever order |
| Reassembly.PiecesArrive | aether-core/src/connection.rs:354-374 | any selection of the sent frames, in any order, with repetitions, arrives as those chunks in that order |
| Reassembly.WalkChunks | aether-core/src/stream.rs:209-224 | the walk over the sorted arrivals takes the chunks up to the first missing one, the first repeated one or the read's limit, and their bytes |
| Reassembly.ReadAfterDelivery | aether-core/src/stream.rs:188-237 | end to end, after any losses, repetitions and reordering: what one read returns, which chunks it takes, and that it loses none |
| Reassembly.WholeDataIff | aether-core/src/stream.rs:188-230 | end to end, one read returns all the data if and only if every chunk arrived, none but the last twice, and the read has room beyond the start of the last |
| Reassembly.AnyPermutationReassembles | aether-core/src/stream.rs:188-237 | end to end, any permutation of the frames gives back exactly the data and leaves the buffer empty, in one read that has room for the last chunk |
| Reassembly.ReceiveAll | aether-core/src/stream.rs:233-237 | the receiving objects, fed any datagrams, add exactly the decodable ones' payloads at their offsets to what they hold |
| Reassembly.Transfer | aether-core/src/connection.rs:354-374 | the sending and receiving objects together, whatever they sent or hold from before: the outcome of one read after any delivery; all of the data when nothing was held and all of it arrived; just the old fragment when one at offset 0 was |
| ReassemblyRuns.StreamsReassembleApart | aether-core/src/stream.rs:188-237 | the frames of any transfers on different streams, mixed in any way: each stream whose chunks have all arrived is read whole |
| Splices.ReadSplices | aether-core/src/stream.rs:188-230 | one read of any fragments on the chunk grid, of whatever origin: the first arrivals along the grid, up to a gap, a repeat, a short fragment or its limit |
| Splices.ReadIsIff | aether-core/src/stream.rs:188-230 | and exactly when that is some given data |
| ReassemblyRuns.ReadsMix | aether-core/src/connection.rs:354-374 | end to end, any transfers on one stream after any arrivals: one read takes the first arrivals along the grid, whosever they are |
| ReassemblyRuns.TransferComesOutIff | aether-core/src/connection.rs:354-374 | end to end, one read of any transfers on one stream gives some data, be it one of theirs or not, if and only if at each of its grid positions its bytes came first, and alone but for the last, with room for the last and nothing that continues it |
| ReassemblyRuns.TwoTransfersMix | aether-core/src/connection.rs:362-370 | the first chunk of one transfer and the second of another are read as data that neither is |
| ReassemblyRuns.SecondTransferCollides | aether-core/src/connection.rs:362-370 | in particular, once two first chunks have arrived, a read returns exactly the one that came first |
| ReassemblyRuns.ReadsGiveFirst | aether-core/src/stream.rs:188-237 | over every run of arrivals, reads and closes in which chunk 0 does not come twice, all reads together return what the first to find chunk 0 does |
| ReassemblyRuns.ReadsTogetherIff | aether-core/src/stream.rs:188-237 | over every run in which each chunk arrives once, all reads together give the data if and only if the first to find chunk 0 comes after all have arrived and has room for the last |
| FlowRuns.StepAccounts | aether-core/src/stream.rs:91-116 | every write, grant, close and delivery keeps the accounts: writes tile, the sender is within its window, the receiver not beyond the sender |
| FlowRuns.RunsAccount | aether-core/src/stream.rs:80-122 | in every reachable state the writes tile what was sent, within the window, and the receiver's offset is the furthest end delivered |
| FlowRuns.TilesIffWindowFits | aether-core/src/stream.rs:92-101 | the writes of every run tile the stream if and only if the window is below 2^32 |
| FlowRuns.SendsIff | aether-core/src/stream.rs:80-185 | over every run, a write succeeds if and only if writing was not closed and the bytes written with its own are no more than the greatest of the window and all grants; it is logged where those before it end, and otherwise nothing changes |
| StreamManagers.StreamManager.constructor | aether-core/src/stream.rs:263-274 | an empty table; client ids start at 2, server ids at 1 |
| StreamManagers.StreamManager.OpenStream | aether-core/src/stream.rs:277-303 | what the table function OpenNext says, of which StreamIds.OpensIff proves when it succeeds; every stream object there before is there after, and the new one is of the id returned |
| StreamManagers.StreamManager.AcceptStream | aether-core/src/stream.rs:306-317 | refused exactly when the id is live; otherwise a new open stream, without a check of parity or limit |
| StreamManagers.StreamManager.CloseStream | aether-core/src/stream.rs:334-341 | closes the read half of one stream and drops it once closed; unknown ids are an error; nothing else of any stream changes |
| StreamManagers.StreamManager.ShutdownStream | aether-core/src/stream.rs:344-352 | closes both halves of one stream and drops it once closed; an idle stream stays; nothing else of any stream changes |
| StreamIds.ActKeepsOrder | aether-core/src/stream.rs:277-352 | each open, announcement, close and shutdown keeps counters, issued ids and live streams consistent on both sides, and only an open moves a counter |
| StreamIds.RunsAreOrderly | aether-core/src/stream.rs:263-352 | so does every run of both endpoints, of any length, in which no counter wraps, and it keeps each table's own streams within its limit |
| StreamIds.IdsNeverCollide | aether-core/src/stream.rs:263-352 | over every run, limited only in the opens tried at either side, the k-th id is 2k at the client and 2k-1 at the server, none is issued again or by both, no open or accept overwrites a live stream, and every announcement is accepted as an open stream |
| StreamIds.OpensIff | aether-core/src/stream.rs:277-303 | after every run, an open hands out the next id of its side, as an open stream, if and only if fewer streams than the limit are in the table and that id is at most 0x3FFFF; otherwise no stream and no issued id changes; the counter moves on unless the table is full |
| StreamIds.StreamsAreLimited | aether-core/src/stream.rs:277-317 | over every run, a table holds at most as many streams of its own side as the limit says, and at most as many in all if it has accepted none |
| StreamIds.ClosesSay | aether-core/src/stream.rs:306-352 | after every run, a shutdown takes a stream out; a close does if its writing half was closed, and otherwise closes its reading half; neither touches another stream; ids not there are refused, and ids that are there are not accepted again |
| Hellos.WriteClientHello | aether-core/src/handshake.rs:107-145 | the encoder's pushes and its loop over the versions write the client hello's wire image |
| Hellos.WriteServerHello | aether-core/src/handshake.rs:279-301 | the same of the server hello |
| Hellos.ReadClientHello | aether-core/src/handshake.rs:148-231 | the decoder with its moving offset, on any bytes: the hello, an error, or an index out of range |
| Hellos.ReadServerHello | aether-core/src/handshake.rs:304-356 | the same of the server hello |
| Hellos.ClientHelloRoundTripIff | aether-core/src/handshake.rs:107-231 | a client hello is read back from its encoding, whatever follows, if and only if it lists at most 255 versions |
| Hellos.ServerHelloRoundTripIff | aether-core/src/handshake.rs:279-356 | a server hello is read back, whatever follows, if and only if its proof is at most 65535 bytes |
| Hellos.ClientHelloPanicLengths | aether-core/src/handshake.rs:148-172 | some input of a length runs the decoder off its end if and only if the length is from 80 to 383 |
| Hellos.ServerHelloPanicLengths | aether-core/src/handshake.rs:304-331 | the same if and only if the length is below 65672 |
| Hellos.TranscriptUnambiguous | aether-core/src/handshake.rs:431-503 | equal transcripts come from equal client hellos and equal server hellos |
| Hellos.LabelsAreAscii | aether-core/src/handshake.rs:464-503 | the labels in the transcript are the ASCII texts ClientHello: and ServerHello: |
| WireLayouts.ClientHelloAccepted | aether-core/src/handshake.rs:148-231 | a client hello is accepted if and only if its algorithm is 0 or 1 and it is as long as its list of versions calls for, refused if and only if it is under 80 bytes or its algorithm is unknown, and its fields are what stands in their places |
| WireLayouts.ServerHelloAccepted | aether-core/src/handshake.rs:304-356 | the same of a server hello, which is never refused, and of its proof's length |
| WireLayouts.HelloLayouts | aether-core/src/handshake.rs:107-301 | the encoders put every field of either hello in those places, and nothing after |
| Handshakes.HandshakeContext.Client | aether-core/src/handshake.rs:385-398 | a fresh client context |
| Handshakes.HandshakeContext.Server | aether-core/src/handshake.rs:401-414 | a fresh server context |
| Handshakes.HandshakeContext.DeriveKeys | aether-core/src/handshake.rs:616-627 | uses the secret up, even when the peer's key is missing; otherwise the key of the shared secret and the transcript |
| Handshakes.HandshakeContext.CreateClientHello | aether-core/src/handshake.rs:417-443 | the hello sent is the one recorded in the transcript |
| Handshakes.HandshakeContext.HandleClientHello | aether-core/src/handshake.rs:446-518 | undecodable hellos and unsupported versions change nothing; otherwise the answer of the next row |
| Handshakes.HandshakeContext.AnswerClientHello | aether-core/src/handshake.rs:464-518 | takes over the peer, signs the transcript so far, negotiates, appends the answer and derives the keys |
| Handshakes.HandshakeContext.HandleServerHello | aether-core/src/handshake.rs:521-556 | takes over the peer, then checks the proof over the transcript without this message, then appends and derives |
| Handshakes.HandshakeContext.CreateFinished | aether-core/src/handshake.rs:559-575 | a MAC over the transcript, or an error without session key or peer id; changes nothing |
| Handshakes.HandshakeContext.HandleFinishedAndRespond | aether-core/src/handshake.rs:578-603 | a wrong MAC changes nothing; a right one completes and is answered |
| Handshakes.HandshakeContext.VerifyFinished | aether-core/src/handshake.rs:606-613 | a wrong MAC changes nothing; a right one completes |
| HandshakeRuns.RejectedClientHelloIsHarmless | aether-core/src/handshake.rs:446-462 | a client hello changes the server if and only if it is accepted, and it is rejected if and only if it is undecodable or lists no version we speak, with the decoder's error or a version error |
| HandshakeRuns.RejectedServerHelloIsBelieved | aether-core/src/handshake.rs:521-543 | a failed proof is a cryptographic error that leaves transcript, secret, state, key and capabilities alone but replaces peer id, key and identity |
| HandshakeRuns.SpoilingExtendsTranscript | aether-core/src/handshake.rs:546-550 | a ServerHello is rejected in spite of a passing proof exactly when no secret is at hand, and has then become part of the transcript |
| HandshakeRuns.RejectedFinishedIsHarmless | aether-core/src/handshake.rs:559-613 | a Finished is accepted if and only if it is the MAC of our key and transcript, and otherwise changes nothing at either side; which error it is; and a Finished can be made if and only if there is a key and a peer |
| HandshakeRuns.DerivingUsesUpSecret | aether-core/src/handshake.rs:616-627 | keys are derived if and only if secret and peer key are there, and the secret is gone in any case |
| HandshakeRuns.ClientHelloIsAnswered | aether-core/src/handshake.rs:446-518 | through the wire, the honest client hello is accepted by a server in any state that earlier rejections leave, and answered by a frame addressed to the client |
| HandshakeRuns.ServerHelloIsAccepted | aether-core/src/handshake.rs:521-556 | through the wire, the honest answer verifies at the client and yields the server's key, whatever was rejected before |
| HandshakeRuns.AdvanceTracks | aether-core/src/handshake.rs:417-627 | unless the transcript is spoiled, no honest step is ever refused, in any order the messages allow |
| HandshakeRuns.RejectionTracks | aether-core/src/handshake.rs:417-627 | any rejection, unless a ServerHello passed the proof check, changes nothing but what the client believes of its peer |
| HandshakeRuns.StaysApart | aether-core/src/handshake.rs:417-627 | a transcript that a rejected ServerHello has spoiled differs from the server's after everything that can follow |
| HandshakeRuns.RunsTrack | aether-core/src/handshake.rs:417-627 | every run, whatever messages it rejects, is where its honest steps have brought it, or spoiled for good if a rejected ServerHello passed the proof check |
| HandshakeRuns.Agreement | aether-core/src/handshake.rs:417-627 | after six honest steps both sides are complete with one transcript, the key that the client's secret and the server's public key make with it, and one set of capabilities, and their transcripts are equal, if and only if no rejected ServerHello passed the proof check. Of the capabilities, multipath holds if and only if both sides have it, each limit is the lower of both, and the ack frequency is the client's. The client then knows the server if and only if no late rejected ServerHello claimed otherwise |
| HandshakeRuns.FullAgreement | aether-core/src/handshake.rs:417-627 | when bad ServerHellos come before the honest one and none passes the proof check, both sides agree on everything, each other's ids and identities included |
| HandshakeRuns.MessagesSay | aether-core/src/handshake.rs:417-575 | after every such run, what the four messages decode to: their types, the ids they come from and go to, every field of both hellos in terms of what both sides hold, the server's proof as its signature over the label and the client's hello, and either Finished as the MAC of the transcript under the session key |
| HandshakeRuns.AwaitedRejectionsAreSafe | aether-core/src/handshake.rs:521-556 | bad ServerHellos that come while the client waits for the honest one never pass the proof check and are never late |
| HandshakeRuns.LateServerHelloMisleads | aether-core/src/handshake.rs:524-543 | after every run in which both agree, some rejected ServerHello leaves them agreed and the client with the wrong peer id |
| HandshakeRuns.UsedUpSecretSpoils | aether-core/src/handshake.rs:533-550 | after every agreeing run in which the client has accepted a ServerHello, one with the honest claim, signed by any identity, is rejected and ends the agreement on the transcript |
| HandshakeRuns.DuplicateFinishedIsHarmless | aether-core/src/handshake.rs:578-613 | after agreement, each honest Finished that comes again is accepted and changes nothing |
| HandshakeRuns.DuplicateClientHelloRekeys | aether-core/src/handshake.rs:446-518 | after agreement, the honest ClientHello that comes again is answered under a new id and ends the agreement on the transcript |
| Multipath.PathManager.constructor | aether-core/src/multipath.rs:95-103 | no paths; the next id is 1 |
| Multipath.PathManager.RegisterPrimary | aether-core/src/multipath.rs:106-116 | path 0 is there, active, and primary |
| Multipath.PathManager.CreatePathChallenge | aether-core/src/multipath.rs:119-148 | refused when full; otherwise an inactive path under the next id, awaiting the nonce that the frame carries |
| Multipath.PathManager.FindPathId | aether-core/src/multipath.rs:292-302 | the first PathId extension decides; none, or an empty one, is an error |
| Multipath.PathManager.HandlePathResponse | aether-core/src/multipath.rs:151-183 | only the pending nonce of that path activates it, and uses the nonce up; any error changes nothing |
| Multipath.PathManager.HandlePathChallenge | aether-core/src/multipath.rs:186-223 | the named path is made or updated, active, and the nonce sent back; there is no limit on paths here |
| Multipath.PathManager.DeactivatePath | aether-core/src/multipath.rs:226-231 | one path stops being active |
| Multipath.PathManager.RecordSend | aether-core/src/multipath.rs:256-261 | one path's count and time of activity |
| Multipath.PathManager.RecordLoss | aether-core/src/multipath.rs:263-267 | one path's loss count |
| Multipath.PathManager.RecordRtt | aether-core/src/multipath.rs:269-278 | one path's smoothed round trip |
| Multipath.PathManager.CheckTimeouts | aether-core/src/multipath.rs:281-289 | the table is that of the timeout applied to every path, in whatever order it is walked; PathRuns.TimeoutEndsIff says which paths that ends |
| Multipath.PathManager.BestPath | aether-core/src/multipath.rs:234-244 | none if and only if no path is active; otherwise an active path such that for every active path b, rtt(sent + 10 lost) sent_b <= rtt_b (sent_b + 10 lost_b) sent, in whole numbers, without the losses where nothing was sent; over any table in any order |
| Multipath.FailOver | aether-core/src/multipath.rs:226-244 | deactivating the best path makes another active one the best, which is no better than it and no worse than any other, in the same whole numbers, or leaves none |
| Multipath.ScoreOrder | aether-core/src/multipath.rs:63-75 | one score is at most another if and only if the whole-number comparison says so |
| Multipath.NoWorseMeans | aether-core/src/multipath.rs:63-75 | among paths that lost the same part, the better has the shorter round trip; among paths with the same round trip, the one that lost the lesser part |
| Multipath.BestIsLeast | aether-core/src/multipath.rs:234-244 | so being best by score and by whole numbers are the same |
| Multipath.SmoothIsEighths | aether-core/src/multipath.rs:275 | the weighted average is floor((7 old + new) / 8) |
| Multipath.EstimateStaysInRange | aether-core/src/multipath.rs:269-278 | samples within a positive range keep the estimate in it, over every run of samples |
| Multipath.EstimateConverges | aether-core/src/multipath.rs:269-278 | under a constant sample the estimate reaches, in finitely many steps, a fixed point at most 7 below it, and stays |
| PathRuns.PathFrameRoundTrip | aether-core/src/framing.rs:630-655 | challenge and response frames cross the wire unchanged, carry their path and nonce, and name the type and the connection id given |
| PathRuns.WireRoundTripActivates | aether-core/src/multipath.rs:119-223 | challenge, answer and response through the wire activate exactly the new path at both ends, between the addresses given and at the times given, name the high half of their sender's connection id, and change no other path |
| PathRuns.PathMessageSays | aether-core/src/multipath.rs:292-302 | whatever extensions a frame has, the first of type PathId names the path, and the first eight bytes of the payload are the nonce; it is refused if and only if one of them is missing |
| PathRuns.ChallengeArrives | aether-core/src/multipath.rs:186-223 | a challenge that arrives is answered with its nonce and path; a known path takes over the address, becomes active and keeps all else, an unknown one begins active with nothing counted |
| PathRuns.ResponseRefusedIff | aether-core/src/multipath.rs:151-183 | a response is refused, without effect, if and only if it is malformed or its path unknown, a protocol violation, or its nonce is not the pending one, a cryptographic error |
| PathRuns.IdsStayDense | aether-core/src/multipath.rs:95-148 | with at most 256 paths, over every run the ids in use are 0 to n-1, each path filed under its own id, and n is one more than the challenges made, or the limit |
| PathRuns.RefusedIffFull | aether-core/src/multipath.rs:119-125 | with at most 256 paths, after every run a challenge is refused if and only if the challenges made and the primary path are as many as allowed |
| PathRuns.FreshIffAtMost256 | aether-core/src/multipath.rs:130-131 | every run's next challenge gets an unused id if and only if at most 256 paths are allowed |
| PathRuns.RunsAreSound | aether-core/src/multipath.rs:119-231 | the safety invariant of challenger, responder and one network that loses, repeats and reorders frames of either type to either side holds over every run |
| PathRuns.ConfirmedAtMostOnce | aether-core/src/multipath.rs:151-183 | over every run each challenge, by path and nonce, is confirmed at most as often as it was made, and not again while it is pending, however often responses are replayed |
| PathRuns.ActivePathsWereAnswered | aether-core/src/multipath.rs:119-231 | when no PathChallenge frame reaches the handler of responses, an active path beyond the primary was challenged, and the responder has processed the challenge with that path's latest nonce |
| PathRuns.OwnChallengeActivates | aether-core/src/multipath.rs:151-183 | a challenge handed back to its sender as a response activates its path unanswered |
| PathRuns.SafeIffNoChallenges | aether-core/src/multipath.rs:151-183 | whatever types of frames are handed to the handler of responses, active paths have been answered in every run if and only if PathChallenge is not among them |
| PathRuns.RunsRecord | aether-core/src/multipath.rs:256-278 | over every run, a path's counts are the sends and losses recorded of it, modulo 2^64, and its round trip is the running average over the round trips recorded of it, in their order |
| PathRuns.TimeoutEndsIff | aether-core/src/multipath.rs:281-289 | a timeout ends a path if and only if it was active and a whole millisecond more than the timeout has gone by since its last activity, and changes nothing else |
| PathRuns.SendKeepsAlive | aether-core/src/multipath.rs:256-289 | an active path that sends survives a timeout if and only if less than a millisecond more than the timeout has gone by since |
| Congestion.CongestionController.constructor | aether-core/src/congestion.rs:60-70 | a controller in startup with no samples |
| Congestion.CongestionController.OnAck | aether-core/src/congestion.rs:73-126 | samples, estimates, window and phase after an acknowledgement, in each of the four phases |
| Congestion.CongestionController.OnLoss | aether-core/src/congestion.rs:133-143 | a loss at more than three times the least round trip changes nothing; any other halves the window and goes steady |
| CongestionRuns.RecentTwice | aether-core/src/congestion.rs:80 | dropping old samples early loses nothing that a later cut would keep |
| CongestionRuns.CacheAgreesWithHistory | aether-core/src/congestion.rs:73-97 | after every run the window is the full history filtered to under ten seconds, min_rtt its least, max_bw the greatest rate ever |
| CongestionRuns.BdpBound | aether-core/src/congestion.rs:88-123 | as long as the acknowledgement that set the bandwidth is recent, whatever else has aged out, the product is at most that acknowledgement's bytes, and its 64-bit computation does not wrap |
| CongestionRuns.BdpBoundWhileFresh | aether-core/src/congestion.rs:88-123 | in particular, while nothing has aged out, the product is at most the largest acknowledgement seen |
| CongestionRuns.NextAcksStayIff | aether-core/src/congestion.rs:73-97 | from any state, every next acknowledgement at a given time keeps the product within a bound, or within its own bytes if these are more, if and only if the known bandwidth, at the least round trip still recent, makes no more than the bound |
| CongestionRuns.BdpStaysIff | aether-core/src/congestion.rs:73-97 | over every run, the product stays within the largest acknowledgement, the next one included, whatever that is at a given time, if and only if no bandwidth is known or some sample of the history still recent then is fast enough for the best rate |
| CongestionRuns.BdpOutgrowsAgedSamples | aether-core/src/congestion.rs:80-123 | after two acknowledgements ten seconds apart, of 1001 bytes in all, the product is a million |
| CongestionRuns.AckSetsWindow | aether-core/src/congestion.rs:108-122 | out of startup the window is exactly three quarters, five quarters or all of the product, so at most five quarters of the bytes of a recent acknowledgement that set the bandwidth |
| CongestionRuns.PhaseMoves | aether-core/src/congestion.rs:100-143 | the only moves are startup to drain, drain to probe, and any phase to steady |
| CongestionRuns.PhasesInOrder | aether-core/src/congestion.rs:100-143 | over every run steady is for good, and no run gets from startup to probing without draining |
| CongestionRuns.StartupGrows | aether-core/src/congestion.rs:101-107 | in startup the window gains at least a tenth of its first size with each acknowledgement |
| CongestionRuns.StartupGrowsIff | aether-core/src/congestion.rs:101-102 | an acknowledgement in startup widens the window if and only if it is at least ten bytes wide and not at its maximum |
| CongestionRuns.TinyWindowNeverGrows | aether-core/src/congestion.rs:102 | a startup window below ten bytes never changes |
| CongestionRuns.StartupEnds | aether-core/src/congestion.rs:101-107 | startup is over, after acknowledgements and losses in any order, once the tenths gained make up the distance to any bound on the product |
| CongestionRuns.StartupEndsForBoundedAcks | aether-core/src/congestion.rs:73-107 | in terms of acknowledgements alone: over once the tenths gained make up the bytes of a recent one that set the bandwidth |
| CongestionRuns.StartupEndsIff | aether-core/src/congestion.rs:101-107 | for any first window and bound, some number of acknowledgements takes every run with a known bandwidth and a product within the bound out of startup, if and only if the window is at least ten bytes or as wide as the bound |
| CongestionRuns.AckEndsStartupIff | aether-core/src/congestion.rs:101-107 | an acknowledgement ends startup if and only if a bandwidth is then known and the widened window has caught up with the product |
| CongestionRuns.GainFollowsPhase | aether-core/src/congestion.rs:60-143 | over every run the gain is the one of what came last in the phase, and the last update is the time of the last acknowledgement, or the beginning |
| CongestionRuns.RateIsQuotient | aether-core/src/congestion.rs:89-93 | a rate is the bytes in millionths of a second, in 64 bits, over the round trip, rounded down; none for a zero round trip |
| CongestionRuns.BdpIsQuotient | aether-core/src/congestion.rs:103-121 | the product is bandwidth times least round trip, in 64 bits, in millionths, rounded down |
| CongestionRuns.RecentIff | aether-core/src/congestion.rs:80 | a sample is kept if and only if less than ten seconds, to the nanosecond, have gone by |
| CongestionRuns.LossChangesIff | aether-core/src/congestion.rs:133-143 | a loss changes the controller if and only if its round trip is at most three times the least one, as a 64-bit product, and the controller is not steady with an empty window already; it then halves the window and goes steady |
| CongestionRuns.FirstLossCongests | aether-core/src/congestion.rs:133-143 | before any acknowledgement that is every loss but those at the two greatest round trips, because the product wraps |
| CongestionRuns.LossesHalve | aether-core/src/congestion.rs:133-143 | over every run of losses, n that count as congestion divide the window by 2^n, rounded down, and leave the controller steady, and noisy ones, however many, leave it untouched |

## Left out

- Sockets, tasks, locks and logging, and `Listener`, `connect`, `accept` and `recv_frame` as I/O.
- Reassembly.Arrive: that a received Data frame's offset and payload go to `receive_data` is an assumption, because the crate leaves that step to its user.
- Packet protection: AEAD and its associated data, which the two sides build from different ids (`connection.rs:415-421`); end-to-end claims are about the plaintext encodings.
- Concrete cryptography and its failure modes; no claim about secrecy or forgery is made.
- Reassembly.AnyPermutationReassembles: data of 2^32 bytes or more, because the wire's offsets are 32-bit.
- Congestion.CongestionController.OnAck: the floating-point factors are exact decimals, which agree with the crate for windows below 2^48; a debug build stops where a 64-bit product wraps here.
- Multipath.PathManager.RecordRtt: smoothing is exact rather than floating point, which agrees for values below 2^49.
- Multipath.PathManager.BestPath: scores are exact rationals; ties and roundings of the floating-point scores are not modelled.
- StreamIds.IdsNeverCollide: and the other theorems on runs of stream tables: runs in which a 32-bit stream counter wraps, which takes about 2^31 attempts to open at one side, long after its ids are exhausted.
- FlowRuns.RunsAccount: single writes of 2^63 bytes or more, because no Rust vector is that long.
- FlowRuns.SendsIff: windows of 2^63 bytes or more, where the sum of offset and length could wrap.
- PathRuns.TimeoutEndsIff: paths idle for 2^64 milliseconds or more, where the crate's count of them wraps.
- PathRuns.ActivePathsWereAnswered: a challenger that also receives challenges, because an incoming challenge activates a path by itself.
- HandshakeRuns.Agreement: messages that make a decoder stop with an index out of range, because the endpoint is then gone; and messages that are accepted out of turn, of which the honest ones that come again are treated after the run.
- Framing.AddExtension: frames are values here, so that `add_extension` updates its frame in place is not captured.
- Error message texts; an error is only its kind.
- Connection-level flow control (`stream.rs:355-369`) and the remaining getters, because nothing ties them to stream writes.
- `StreamHandle`, `ConnectionStats`, pending acknowledgements and retransmission, which the crate declares but does not implement.
- Ack, Ping, Close, StreamOpen and StreamClose frame constructors, which differ from the modelled ones in their type and payload only.
- `discovery.rs`, the SDK, the gateway and the demo: wrappers, caches and JSON, with easy properties only.
