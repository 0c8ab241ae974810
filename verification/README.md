# A verified model of gortmp

gortmp is an RTMP server library in Go. This project models its protocol core in Dafny and proves
what that core is for. `dafny verify dfyconfig.toml` checks everything.

## What is modelled

* **Chunk layer.** A writer cuts messages into chunks, each behind one of four header forms of which
  the shorter leave out what the previous header of the chunk stream has said; a reader undoes this.
  Both change their chunk size while they run. `HeaderSpec`, `WriterSpec` and `ReaderSpec` say as
  functions over bytes what goes over the wire and what is made of it; `HeaderCodec`,
  `MessageObject`, `ChunkWriter` and `ChunkReader` are the objects that work step by step on
  buffers, maps and counters, proved to do just that. The theorems are in `RoundTrip` (lockstep,
  end to end), `Boundaries` (lockstep between chunks, and nothing delivered early), `Divergence`
  (extended timestamps), `ChunkSizes` (new chunk sizes), `Timestamps`, `Forms` (the bytes of every
  message and the time reported for it, told by the messages before it alone), `Settings` (chunk size
  and window, told by the messages delivered), `Independence` and `Interleaving` (interleaved chunk
  streams), `Acknowledge` (window reports) and `Exchange` (both objects together).
* **Sending.** `SendProtocol` is a step relation over concurrent `Send` calls, the `WriteTo` loop,
  `CreateChunkStream` and `Close`; every interleaving writes whole messages one after the other, and
  calls fail only for the reason they give.
* **Media.** `Flv` reads tag headers, `MediaSpec` is the publish/subscribe loop over any sequence of
  events together with the simple function of the history that each subscriber gets, `BufferSpec`
  the byte-bounded queue behind it; `MediaStreams` and `MediaBuffers` are the objects.
* **Handshake.** `HandshakeSpec` has digest windows, signing and detection with HMAC as an arbitrary
  function with 32-byte results; `Handshakes` does it in place on byte buffers.
* **Ids.** `Allocation` has runs of stream creation and deletion; `Connection` the stream table.

## Where the code departs from its documentation

The model follows the code; each of these is a theorem.

* A three-byte basic header is written big-endian (header.go:266-267) but read little-endian as its
  comment and section 5.3.1.1 of the RTMP Specification 1.0 say. `BaseHeaderRoundTrip` gives exactly
  the chunk stream ids that survive: 2 to 319, and from there on those whose two bytes are equal.
  `BaseHeaderExample`: 320 comes back as 65.
* An extended timestamp is written with the header that has it only (header.go:334-336), but expected
  with every type 3 chunk after that (header.go:223). `ExtendedTimestampSurvives`: the messages come
  through of which no type 3 chunk follows such a header, that is, which fit in one chunk or have no
  extended timestamp themselves, and do not start with type 3 after one that has (which takes a time
  exactly 0xffffff later); and no others do, if they have few chunks or the reader takes none of
  their bytes for a new chunk size. `TwoChunksWait`,
  `BareStartWaits`, `ExtendedExample` and `BareStartExample` are cases where the reader does nothing
  but wait for more.
* A type 3 chunk that starts a message does not add its delta (chunkstreamreader.go:146), although
  section 5.3.1.2.4 says it applies; and absolute times are taken from the 24-bit field also where
  an extended timestamp follows (chunkstreamreader.go:113). `TimestampLaw` gives the time reported
  for every message and `TimestampSurvives` when it is the right one. `LateStartIsCapped`: a single
  message with a time above 0xffffff is enough; `SteadyPaceLags`: the shortest failing runs below that.
* The writer takes the start of every chunk of a set-chunk-size message for a new size, on every chunk
  stream, but ignores 0 (chunkstreamwriter.go:218-231); the reader takes the start of the completed
  message, on chunk stream 2 only, 0 included (chunkstreamreader.go:70-73). `ChunkSizesAgree` says
  exactly when they stay together after a message cut as the reader expects, as one of a single chunk
  (`OneChunkAgrees`) always is; `ChunkSizeExample` and `LongChunkSizeExample` are cases where not.
  `PanicsExactly` says when the writer panics over such a message, `PanicExample` is a case.
* `mediaBuffer` adds sizes in 32 bits (mediabuffer.go:83), so that a sum that wraps around passes the
  limit: `ReceiveExact` says when it does, `OverflowPassesTheLimit` gives inputs.

## Model

| member | source | states |
|---|---|---|
| HeaderSpec.BaseHeaderRoundTrip | header.go:240-274 | for every csid, format and following bytes, the basic header reads back with the right length if and only if the csid is one of those on which both byte orders agree |
| HeaderSpec.BaseHeaderExample | header.go:260-271 | the id 320 is read back as 65 |
| HeaderSpec.HeaderRoundTrip | header.go:100-351 | reading what `Write` wrote restores every field the format carries, 24-bit, little-endian and extended ones included, consumes exactly those bytes, and leaves all that follows |
| HeaderSpec.ExtendedInTypeThree | header.go:222-235 | a type 3 header is taken to carry an extended timestamp exactly if the last header of its chunk stream had one above 0 |
| HeaderCodec.ReadBaseHeader | header.go:56-97 | the byte-by-byte reader returns what the decoding function says with the bytes consumed, and on short input fails having counted what there was |
| HeaderCodec.Header.ReadHeader | header.go:100-237 | fills the receiver with the carried fields, other fields keeping their value, extended timestamp only where the format or the previous header calls for it, and returns the bytes consumed; on short input it fails having counted the fields read in full |
| HeaderCodec.Header.Write | header.go:240-351 | appends exactly the wire form and returns its length; refuses a csid above 65599 without writing |
| MessageObject.Message.constructor | message.go:26-40 | a new message is complete: buffer, size modulo 2^32 and both timestamps |
| MessageObject.Message.Inbound | chunkstreamreader.go:149-160 | an incoming message starts empty with the fields of its header |
| WriterSpec.RemainingStep | chunkstreamwriter.go:168-181 | one chunk and then the rest is what remained, with strictly less payload left and a chunk size above 0: the loop ends |
| WriterSpec.PiecesCut | chunkstreamwriter.go:210-222 | cutting a payload gives ceil(L/size) pieces, all but the last of full size and none empty, which together are the payload |
| WriterSpec.ContinueIsFramed | chunkstreamwriter.go:189-234 | all chunks after the first are those pieces, each behind a type 3 basic header, at an unchanged chunk size |
| WriterSpec.Chunking | chunkstreamwriter.go:168-234 | a message of L > 0 bytes other than a new chunk size goes out as ceil(L/size) chunks, and the bytes written are L, the first header, and one basic header for each further chunk |
| ChunkWriter.OutChunkStream.NewHeader | chunkstreamwriter.go:236-298 | picks, from the state it updates, the header form that `Forms` describes by the messages sent |
| ChunkWriter.ChunkStreamWriter.constructor | chunkstreamwriter.go:58-78 | a new writer has chunk streams 2, 3 and 4 on their queues and the default sizes |
| ChunkWriter.ChunkStreamWriter.CreateChunkStream | chunkstreamwriter.go:80-110 | registers the first free id below 100 on the queue of that priority, and nothing else; an invalid priority or a full table changes nothing |
| ChunkWriter.ChunkStreamWriter.WriteChunk | chunkstreamwriter.go:189-234 | one chunk of the current message is appended, counted and taken off the buffer, and the chunk size follows |
| ChunkWriter.ChunkStreamWriter.WriteMessage | chunkstreamwriter.go:168-181 | the whole message goes out, nothing for an empty one, and the count is the number of bytes |
| ChunkWriter.ChunkStreamWriter.Transmit | chunkstreamwriter.go:150-154 | the closure of `Send` writes the message on its chunk stream and leaves the state of all others alone |
| ChunkWriter.ChunkStreamWriter.WriteTo | chunkstreamwriter.go:118-138 | the loop writes the messages it is handed one after the other; the count it returns stays 0 |
| ReaderSpec.ReadChunkConsistent | chunkstreamreader.go:84-188 | a chunk keeps every partial message in agreement with its last header and strictly shorter than its size, and a completed message has exactly its size |
| ReaderSpec.ReadAllConsistent | chunkstreamreader.go:132-187 | the same in every state between chunks of any run, so that `Remain` never underflows and every message delivered holds exactly its size |
| ReaderSpec.ChunkAdvances | chunkstreamreader.go:132-187 | from any consistent state a chunk of type 3 appends its payload to the message under way, any other begins a message and drops what was under way; a message is delivered with the chunk that completes it |
| ReaderSpec.InvalidExactly | chunkstreamreader.go:108-147 | a chunk is refused exactly if it is not of type 0 and the first on its chunk stream |
| ReaderSpec.CountedAtEof | chunkstreamreader.go:84-106 | at the end of the input all bytes are counted, but for those of a message header that breaks off, fewer than 15 |
| ChunkReader.Inherit | chunkstreamreader.go:108-147 | completes a header in place by the inheritance rules, or finds there is nothing to inherit from |
| ChunkReader.ReadPayload | chunkstreamreader.go:149-185 | adds one chunk to the message under way or to a new one, and hands it over when complete |
| ChunkReader.ChunkStreamReader.HandleMessage | chunkstreamreader.go:69-82 | obeys control messages of chunk stream 2 as `Settings` says, and passes every message on |
| Settings.HandleObeys | chunkstreamreader.go:69-82 | type 1 on chunk stream 2 sets the chunk size and type 5 the window, to the first four bytes as a number; `handleMessage` panics exactly on a shorter one of these; any other message changes neither |
| Settings.LastSettingHolds | chunkstreamreader.go:69-82 | for every input and start, chunk size and window are what the last type 1 and type 5 message delivered on chunk stream 2 said, or what they were |
| Settings.FreshSettings | chunkstreamreader.go:41-48 | from a new reader they are 128 and 1048576 until then |
| Settings.WindowExample | chunkstreamreader.go:74-75 | sixteen literal bytes from a new reader: one message with the fields they spell, and a window of 5000 |
| ChunkReader.ChunkStreamReader.FindStream | chunkstreamreader.go:93-98 | finds or files a chunk stream; no other changes |
| ChunkReader.ChunkStreamReader.ReadChunk | chunkstreamreader.go:84-188 | one chunk does to the object, the input and the handler what the reading function says, for every input; one that cannot be read delivers nothing and is counted as far as it was read |
| ChunkReader.ChunkStreamReader.ReadFrom | chunkstreamreader.go:50-67 | the handler gets exactly the messages and window reports of the whole run, the error is the one that ended it, and the count is exact also when the last chunk breaks off |
| RoundTrip.HeaderExpands | chunkstreamwriter.go:236-298 | whatever form is chosen, the reader's inheritance rules recover length, type and stream id |
| RoundTrip.CompressionRefinesFull | chunkstreamwriter.go:236-298 | for every message history the compressed headers, expanded, mean what a type 0 header for each message would mean |
| RoundTrip.ContinuationChunk | chunkstreamreader.go:132-187 | a type 3 chunk takes the reader from any point inside a message to the next one or to its delivery |
| RoundTrip.ReadsContinuation | chunkstreamreader.go:164-185 | all remaining chunks of a message, as written, complete it |
| RoundTrip.MessageRoundTrip | chunkstreamwriter.go:168-298 | from lockstep, the bytes of one message deliver just it, with equal csid, type, stream id, size and payload, and leave both ends in lockstep |
| RoundTrip.KeepsLockstep | chunkstreamreader.go:69-78 | after each message the chunk sizes agree, no message is partial, and the last headers agree |
| RoundTrip.EndToEnd | chunkstreamwriter.go:168-298 | the bytes of any run of the writer, read from lockstep, deliver exactly the non-empty messages in order with no byte left over, also when chunk sizes change |
| RoundTrip.FreshEndToEnd | chunkstreamreader.go:69-188 | the same from fresh ends for all messages that meet conditions readable off each message alone |
| RoundTrip.PlainIsSendable | chunkstreamwriter.go:218-231 | messages with csid 2 to 319, less than 2^24 bytes, a timestamp below 0xffffff and well-formed control payloads can be sent in any order: the chunk size stays at least 4 |
| Boundaries.BoundariesOfMessage | chunkstreamwriter.go:168-181 | after any number of turns of the writer's loop that leave something unsent, the reader fed these bytes has the same chunk size as the writer, the partial message, and a last header that the rest completes |
| Boundaries.ChunkBoundaryLockstep | chunkstreamreader.go:132-187 | the same at every chunk boundary of a whole run, whatever messages came before: just those have been delivered, what the reader holds and what the writer has left make up the payload, and what it still sends ends the message; at message boundaries the ends are in lockstep |
| Boundaries.MessageIsSilent | chunkstreamreader.go:164-185 | read up to any point before its last byte, a message delivers nothing |
| Divergence.ExtendedTimestampSurvives | header.go:222-223 | a message comes through intact if it fits in one chunk or has no extended timestamp, and does not start with type 3 after a header with one; and only then, if it has so few chunks that their basic headers come to fewer bytes than the reader takes too many, or the reader takes nothing for a new chunk size |
| Divergence.BareStartIsRare | chunkstreamwriter.go:258-277 | a message starts with type 3 after a header with an extended timestamp only exactly 0xffffff after the message before |
| Divergence.StarvesAnyway | chunkstreamreader.go:132-187 | whatever new chunk sizes are set on the way, delivering a message of a given size on a csid takes at least its missing payload, a basic header, and a message header after an extended timestamp |
| Divergence.BareChunkWaits | header.go:222-223 | a type 3 chunk after a header with an extended timestamp, written with just the payload that is missing, is read as incomplete |
| Divergence.BareStartWaits | header.go:222-223 | of a message of one chunk that starts so nothing is delivered, whatever its type and payload, and the reader stays as it was |
| Divergence.Starves | chunkstreamreader.go:132-187 | however bytes are read, delivering a message of a given size on a csid takes at least its missing payload, one basic header for each chunk, and a message header after an extended timestamp |
| Divergence.TwoChunksWait | header.go:334-342 | of a message of two chunks with an extended timestamp nothing is delivered, whatever its payload |
| Divergence.ExtendedExample | header.go:334-342 | so with 200 bytes at time 0x1000000 from fresh ends |
| Divergence.BareStartExample | chunkstreamwriter.go:258-277 | of any three alike one-chunk messages 0xffffff apart, from fresh ends, just the first two are delivered |
| Divergence.BareStartAtOne | chunkstreamwriter.go:258-277 | so with one byte at the times 1, 0x1000000 and 0x1ffffff |
| ChunkSizes.ChunkSizesAgree | chunkstreamwriter.go:216-231 | after a set-chunk-size message of any number of chunks, cut as the reader expects, both ends agree if and only if the last size the writer took from it is the one the reader took, or kept; one that starts with type 3 after an extended timestamp leaves the reader as it was |
| ChunkSizes.OneChunkAgrees | chunkstreamwriter.go:216-231 | with one chunk that is if and only if it came on chunk stream 2 and is not 0, or it came elsewhere and changes nothing |
| ChunkSizes.ChunkSizeExample | chunkstreamwriter.go:229-231 | 4096 announced on chunk stream 3: the writer goes on with 4096, the reader with 128 |
| ChunkSizes.LongChunkSizeExample | chunkstreamwriter.go:218-231 | 200 bytes on chunk stream 2: the writer goes on with what starts the second chunk, the reader with what starts the first |
| ChunkSizes.PanicsExactly | chunkstreamwriter.go:218-219 | writing panics if and only if the message is a set-chunk-size one of which a chunk has fewer than four bytes left; for one of four bytes, if and only if the chunk size is below 4 |
| ChunkSizes.PanicExample | chunkstreamwriter.go:218-219 | a fresh writer sent a chunk size of 2 panics over the next one |
| Timestamps.StreamStamp | chunkstreamreader.go:110-162 | one message start adds to the lag the delta of a type 3 start and what exceeds 0xffffff of another, starts it anew with type 0, and wraps no counter |
| Timestamps.StartTimestamp | header.go:353-358 | for any header that starts a message, the real timestamp is the time sent with type 0 and whenever the extended field is used, and else the delta to the message before |
| Timestamps.TimestampLaw | chunkstreamreader.go:110-162 | over every run that can be sent, each absolute timestamp delivered is the one sent minus, since the last type 0 start of its csid, the deltas of type 3 starts and what other times and deltas have beyond 0xffffff |
| Timestamps.NeverTwoTypeThreeStarts | chunkstreamwriter.go:258-277 | no two consecutive messages of a csid start with type 3, and every type 3 start has a positive delta |
| Timestamps.TimestampSurvives | chunkstreamreader.go:110-162 | a timestamp arrives unchanged if and only if since the last type 0 start there was no type 3 start, and no time or delta above 0xffffff |
| Timestamps.SteadyPaceLags | chunkstreamreader.go:145-146 | the third of any three alike messages at a steady pace is reported with the time of the second |
| Timestamps.LateStartIsCapped | chunkstreamreader.go:111-113 | any one-chunk message from a fresh writer at a time from 0xffffff on is reported with the absolute time 0xffffff, though its own timestamp arrives |
| Forms.NextHeader | chunkstreamwriter.go:236-298 | type, timestamp field, length, message type, stream id and extended timestamp of the next header are those the messages before it determine, by the guards stated over these |
| Forms.FoldTells | chunkstreamwriter.go:236-298 | so after every history of messages on every csid |
| Forms.StartsWith | chunkstreamwriter.go:189-234 | whatever was sent before, a message starts with the literal header bytes its history determines (type 0, 1, 2 or 3 by those guards; 24-bit and 32-bit numbers big-endian, the stream id little-endian) and then as much payload as the chunk size allows |
| Forms.MessageBytes | chunkstreamwriter.go:168-234 | all bytes of a message other than a new chunk size: that header, and the pieces of the payload, each but the first behind a type 3 basic header |
| Forms.StartLength | header.go:276-351 | that header has 11, 7, 3 or no bytes behind its basic header, and four more from a time or delta of 0xffffff on |
| Forms.ChunkSizeIsLast | chunkstreamwriter.go:216-231 | in every run that can be sent the chunk size is what the last non-empty type 1 message said, or 128 |
| Forms.StampsAreForms | chunkstreamwriter.go:236-298 | the header forms `TimestampLaw` speaks of are those given by the messages alone |
| Forms.TimesReported | chunkstreamreader.go:149-160 | over every run that can be sent, the timestamp reported for a message is the delta to the message before it on its csid, if that had the same stream id and the time grew by less than 0xffffff, and else its own time; absolute times lag by what the forms given by the messages say |
| Independence.StreamsAreIndependent | chunkstreamreader.go:93-98 | however chunks of several csids are interleaved, while no new chunk size completes, the messages on a csid and the one under way there are those that come of its chunks alone |
| Interleaving.AnyInterleaving | chunkstreamreader.go:93-98 | chunks of any csids that can be read alone are read to the end in any interleaving, and deliver on each csid what they deliver alone, if no new chunk size is among them |
| Interleaving.InterleavedMessages | chunkstreamreader.go:132-187 | in any such interleaving, a writer's messages on one csid arrive whole and in order |
| Acknowledge.ChunkLength | chunkstreamreader.go:84-106 | no chunk is longer than the chunk size and 18 bytes of header |
| Acknowledge.OneChunk | chunkstreamreader.go:54-66 | after each chunk the unreported bytes are below the window in force |
| Acknowledge.AcknowledgementBound | chunkstreamreader.go:50-67 | over every run the bytes counted are the bytes consumed, and each report follows the one before by at least the window in force and by less than the window and chunk size before that chunk allow |
| Acknowledge.FreshAcknowledgement | chunkstreamreader.go:50-67 | from the start of a connection, what has been read and not reported is less than the value of the last type 5 message delivered on chunk stream 2, or than 1048576 before there was one |
| Acknowledge.ReportsExactly | chunkstreamreader.go:54-66 | one more chunk brings a report exactly if the bytes since the last one then reach that window, and the report is the number of all bytes so far |
| Exchange.SendAndReceive | chunkstreamwriter.go:118-138 | a writer object and a reader object in lockstep: the reader's handler gets exactly the messages sent |
| SendProtocol.StepKeepsPhases | chunkstreamwriter.go:140-166 | every step of any goroutine keeps the loop serving one call at a time, each at most once |
| SendProtocol.StepKeepsRealTime | chunkstreamwriter.go:157-164 | every step keeps messages in the real-time order of their calls |
| SendProtocol.StepKeepsSequential | chunkstreamwriter.go:118-138 | every step keeps the bytes sent and pending equal to those of the calls taken, made one after the other |
| SendProtocol.SendsSerialize | chunkstreamwriter.go:112-166 | in every reachable state the output is whole messages and at most a prefix of the running one; a call that succeeded was written exactly once, one that failed not at all; calls in sequence are written in sequence; a call is told of a closed writer, and the loop ends, only if the writer is closed |
| SendProtocol.StepKeepsReasons | chunkstreamwriter.go:140-166 | no step tells a call or the loop that the writer is closed before it is, nor offers a call with an unregistered csid |
| SendProtocol.WhySendsFail | chunkstreamwriter.go:140-164 | in every run a call returns ErrInvalidChunkStreamID exactly if its csid was not registered when it was made, and ErrClosedChunkStream only with the writer closed; what a call has returned stays |
| SendProtocol.ReachableRecords | chunkstreamwriter.go:80-166 | in every run there is one call for each time `Send` was called, with its message; csids are registered by creating chunk streams only, and the writer is closed by `Close` only |
| SendProtocol.SendCompletes | chunkstreamwriter.go:118-166 | a call offered to a waiting loop can be taken, written whole and told of its success, changing nothing else |
| SendProtocol.ClosingReleases | chunkstreamwriter.go:112-166 | no deadlock: once the writer is closed, from every reachable state all calls can return and the loop can end, with the running message written to its end and no other |
| SendProtocol.ReaderGetsSends | chunkstreamwriter.go:112-166 | in every reachable state, a reader fed what concurrent senders have written has delivered exactly the messages sent to the last byte, in that order and each as sent, and nothing of the running one |
| Flv.GetAudioHeader | flvtag.go:29-49 | present exactly for audio tags; its bit fields are in range and make up the first byte, and the packet type is the second byte for AAC only |
| Flv.GetVideoHeader | flvtag.go:51-70 | present exactly for video tags; likewise, with the packet type for AVC only |
| Flv.TagsOnTheWire | mediastream.go:193-234 | metadata, keyframes and both kinds of sequence headers by the type byte of the tag (18, 9, 8) and the first two bytes of its body (0x10 to 0x1F, 0x17 0x00, 0xA0 to 0xAF 0x00) |
| MediaSpec.CacheIsHeaders | mediastream.go:190-223 | the cached tags are at all times the first data tag, the latest AVC and the first AAC sequence header published, told by their bytes |
| MediaSpec.SubscriberRefinement | mediastream.go:175-260 | in every run a subscriber has received exactly the headers cached when it subscribed and then every tag published during its subscription from the first on that is of type 9 with a first byte 0x10 to 0x1F, in order; its channel is closed exactly if it unsubscribed, and nothing is sent after that |
| MediaSpec.ChannelDiscipline | mediastream.go:183-187 | when the loop ends, every channel it ever accepted has been closed exactly once, as the last thing that happened to it |
| MediaStreams.MediaStream.CacheHeader | mediastream.go:190-223 | what is cached after a tag |
| MediaStreams.MediaStream.OfferAll | mediastream.go:227-239 | the subscribers that have started, or start with this tag by its bytes, get it, in whatever order the map is walked, on open channels |
| MediaStreams.MediaStream.Distribute | mediastream.go:225-239 | exactly the subscribers that have started or start with this tag get it |
| MediaStreams.MediaStream.HandleSubscribe | mediastream.go:240-250 | a new channel gets the cached headers and waits for a keyframe |
| MediaStreams.MediaStream.HandleUnsubscribe | mediastream.go:251-255 | closes a subscribed channel once; a second time, or for a channel unknown, nothing happens |
| MediaStreams.MediaStream.CloseAll | mediastream.go:183-187 | closes every channel still open and no other |
| MediaStreams.MediaStream.Loop | mediastream.go:175-260 | over real channels, any sequence of events and the shutdown do to every channel what the state machine says |
| BufferSpec.Fifo | mediabuffer.go:48-98 | in every interleaving the tags delivered and then those queued are the accepted ones in order, a subsequence of those received, as many are delivered as the loop chose to while it had one, and the recorded size is their true size modulo 2^32 |
| BufferSpec.DeliversFront | mediabuffer.go:65-98 | a delivery hands over the tag that has waited longest and takes its size off; with nothing queued there is none |
| BufferSpec.Drains | mediabuffer.go:65-98 | as many deliveries as tags are queued leave the consumer with all that was ever accepted, and a recorded size of 0 |
| BufferSpec.ReceiveExact | mediabuffer.go:82-89 | a tag keeps the recorded size exact and below the limit if and only if the addition does not wrap around to below the limit |
| BufferSpec.Bounded | mediabuffer.go:82-98 | while limit plus tag size stays within 32 bits, the recorded size is the sum of the queued sizes and is 0 or below the limit |
| BufferSpec.DropsExactly | mediabuffer.go:83-88 | a tag is then dropped exactly if it would bring the queue up to the limit |
| BufferSpec.AcceptsExactly | mediabuffer.go:82-89 | in any run, whatever wraps around, a tag is accepted exactly if the true sum modulo 2^32 is below the limit |
| BufferSpec.OverflowPassesTheLimit | mediabuffer.go:83 | otherwise two tags of together 4 GiB pass any limit above 1 with a recorded size of 0 |
| BufferSpec.DropsNothing | mediabuffer.go:82-89 | a limit above the total received drops nothing |
| BufferSpec.ConsumerSeesLog | mediabuffer.go:48-80 | a consumer behind a subscription sees a subsequence of that subscriber's log, and all of what arrived if the limit is large enough |
| MediaBuffers.MediaBuffer.Push | mediabuffer.go:82-89 | appends the tag or drops it, in 32-bit arithmetic |
| MediaBuffers.MediaBuffer.Loop | mediabuffer.go:48-80 | the loop over the object keeps all this, hands over a tag whenever it chooses to and has one, and closes its output at the end |
| HandshakeSpec.WindowMovesNothing | handshake.go:72-89 | blocks that differ inside the digest window only have the same window and the same message to sign |
| HandshakeSpec.OffsetByBytes | handshake.go:63-89 | the offset is the sum of bytes 8 to 11 modulo 728 plus 12, or that of bytes 772 to 775 plus 776 |
| HandshakeSpec.ValidMeans | handshake.go:107-132 | signed are the bytes before the digest and then those after it, and a block is valid exactly if what is between is their HMAC |
| HandshakeSpec.SigningValidates | handshake.go:107-132 | signing changes no byte outside the window, moves neither window nor message, and of all blocks equal outside the window exactly the signed one validates |
| HandshakeSpec.ClientIsRecognized | handshake.go:92-105 | a block signed by a client in either scheme validates, as that scheme exactly unless scheme 0 fits too |
| HandshakeSpec.ResponseAnswersClient | handshake.go:138-210 | the answer to a signed C1 has an S1 that validates in the client's scheme and an S2 whose digest is keyed by the client's own |
| HandshakeSpec.ResponseToAny | handshake.go:153-210 | the answer to any C1, unsigned ones in scheme 0: version 3; an S1 that is 00000000 01020304 and the random bytes outside its digest window and validates; an S2 that is the random bytes and their digest keyed by that of C1 |
| HandshakeSpec.ServerKeySpells | handshake.go:27-37 | the server signs with "Genuine Adobe Flash Media Server 001" |
| HandshakeSpec.ClientKeySpells | handshake.go:38-47 | clients sign with "Genuine Adobe Flash Player 001" |
| Handshakes.SumBytes | handshake.go:63-70 | the sum of the bytes, modulo 2^32 |
| Handshakes.GetDigestOffset | handshake.go:72-89 | the offset in a block inside a larger buffer; an unknown scheme counts as 0 |
| Handshakes.ValidateScheme | handshake.go:107-132 | true exactly for a valid block in scheme 0 or 1 |
| Handshakes.Validate | handshake.go:92-105 | the first scheme that fits, or 0 and an error |
| Handshakes.SignBlock | handshake.go:182-192 | the digest is written over its window in the buffer and nothing else changes |
| Handshakes.Answer | handshake.go:153-210 | the answer put together in place, for every C1 and all random bytes |
| Handshakes.SHandshake | handshake.go:138-246 | C0 and C1 are read, the answer to C1 goes out whatever C0 was, and C2 is skipped; it fails exactly on too little input |
| Allocation.LeastFreeId | conn.go:367-374 | the search ends at the least positive id not in use, at most one above the number in use |
| Allocation.StepKeepsValid | conn.go:321-355 | creating and deleting keep the csids of streams distinct and registered, and the count of csids used |
| Allocation.StreamIdsAreDense | conn.go:367-384 | in every run of creates and deletes no stream id exceeds the most streams ever alive at once, and at most 95 are ever created |
| Allocation.CreationStopsAfter95 | chunkstreamwriter.go:98-109 | one more creation succeeds exactly if fewer than 95 have, whatever was deleted, and takes the next csid |
| Allocation.DeletionFrees | conn.go:345-384 | a deletion takes away that stream alone and no chunk stream id |
| Allocation.IdIsReused | conn.go:321-384 | the id of a deleted stream is given out again, with a new chunk stream id, once all below it are in use |
| Allocation.FirstCreations | conn.go:321-343 | without deletions the k-th creation gets stream id k and csid k + 4, and those after the 95th fail |
| Connection.Conn.AllocateStream | conn.go:367-374 | the unbounded search loop ends and files the stream under the least free id |
| Connection.Conn.DeleteStream | conn.go:376-384 | removes that stream and no other, or reports that there is none |
| Connection.Conn.InvokeCreateStream | conn.go:321-343 | a csid and then a stream id are taken, or nothing changes; if the reply cannot be sent the stream stays but is not announced |
| Connection.Conn.InvokeDeleteStream | conn.go:345-355 | the stream goes, its csid stays taken |

## Left out

- AMF values and command.go: they rest on the external goamf package.
- Sockets, buffering, flushing, logging, statistics and float rates (mediastream.go:145-173), netconn.go, log.go, error.go.
- server.go and mediaplayer.go: registries and glue.
- Write errors and failing random sources. A writer's error goes to the sender only, so `WriteTo` goes on with the next message (chunkstreamwriter.go:150-154).
- Messages on which the writer panics (a new chunk size of fewer than four bytes in a chunk): SendProtocol has no step that takes them.
- Fairness of Go's `select`: every choice is arbitrary, so it is proved that calls can return, not that they will.
- HMAC-SHA256 itself and the quality of random bytes: an arbitrary function and arbitrary bytes.
- Publish, Subscribe and Unsubscribe calls made after the stream is closed: they return an error or nothing without reaching the loop.
- ReadHeader: does not say how far a receiver is filled in that breaks off; its only caller drops it.
- ReadChunk: does not describe the reader after a chunk that could not be read, with which the connection ends.
- ReadFrom: requires that no control message of fewer than four bytes arrives, on which `handleMessage` panics.
- HandleMessage: the handler keeps a copy of each message as it was when passed on.
- ExtendedTimestampSurvives: that a message does not come through is proved only if it has few chunks (with one-byte basic headers up to four, up to three if it starts with type 3), or the reader, having lost its place, reads no new chunk size out of it; with one, later chunks could carry more per header than was sent.
- ChunkSizesAgree: does not describe the ends after a set-chunk-size message whose later chunks the writer cuts differently from what the reader expects, nor after one of several chunks that has or follows an extended timestamp.
- FreshEndToEnd: requires control payloads of at least four bytes and new chunk sizes of at least 4; below that the code panics or stops agreeing with the other end.
- CreateChunkStream: the queues of different priority are served in any order, so the priority only stays with the stream.
- WriteTo: serves a given sequence of messages until it is used up, without an error or a close signal; how concurrent calls and closing come in is SendProtocol, which is modelled on values.
- InvokeCreateStream: the reply itself and the stream-begin message are not modelled, only whether the reply could be sent.
- SHandshake: the answer is written before C2 is read, where the code does both at once; log warnings about C0 and versions are not modelled.
- Loop: takes the choices of `select` as a sequence; the variables local to the loop in mediastream.go are fields, and a channel is the record of what was sent on it and whether it was closed.
- MediaBuffer: its linked list is a sequence.
