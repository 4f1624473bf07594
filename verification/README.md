# kairos, modelled in Dafny

kairos streams the output of event cameras (and of the sensors beside them)
from a Rust server to a browser UI over WebTransport. This project models the
core of that system as pure Dafny functions and methods over immutable
datatypes, one module per source component, and proves what the components
promise:

- **Transport worker** (`ui/src/transportWorker.ts`): the
  length-prefixed frame reassembler that reads a stream into pooled buffers
  (`Reassembler`, `BufferPool`), its chunk-independence theorem
  (`ReassemblerProof`: whatever the read sizes, a stream with two or more
  buffers delivers exactly the frames it was fed), the acceptor, the session
  and its messages (`TransportSession`), and the earlier iteration with its
  ping/pong keepalive (`EarlierTransport`, from `transportWorker.bak.ts`).
- **Page protocol** (`ui/src/protocol.svelte.ts`): source ids, outbound
  frames, inbound message frames and the stream registry (`ClientProtocol`).
- **Server framing and routing** (`src/protocol.rs`, `src/client.rs`,
  `src/device.rs`): the stream description, the message frame encoding and
  its round trip (`ServerProtocol`, `Framing`, `ServerReassembler`), the
  router's client and sender tables (`Router`), and the device's header
  framing (`Device`).
- **Buffer stack** (`src/stack.rs`): the shared ring of sample buffers and
  its invariants (`BufferStack`).
- **Recordings** (`src/recordings.rs`, `src/main.rs`): recording states from
  their files, the sorted catalogue, conversion requests, cancellation, the
  conversion walk and the rescan merge (`Recordings`, `Catalogue`,
  `Text` for the name order), the certificate endpoints, the host header and
  device-id assignment (`ServerMain`).
- **EVT3 decoder** (`ui/extension/src/lib.rs`): word decoding, the decoder state machine
  and the frame renderer (`Evt3`).
- **UI logic** (`ui/src/utilities.ts`, `ui/src/painter.ts`,
  `ui/src/eventPainter.ts`, `ui/src/samplePainter.ts`): duration and size
  strings (`Utilities`), colour parsing and the colormap texture (`Painter`,
  `Colormap`), the frame queue (`PaintQueue`), canvas registries
  (`Attachments`), the event painter's per-canvas state (`EventPainter`) and
  the sample painter's collections, charts and views (`SamplePainter`).
- **End to end** (`Interop`): the TypeScript and Rust halves agree on the
  stream description and on message framing in both directions, and
  disagree on source ids once a device id reaches 16 bits.

Shared definitions live in `Wrappers` (Option/Result), `Bytes`
(little-endian encoding), `Constants` and `Text`.

Behaviours of the code that the model keeps as written:

- The acceptor picks the stream class by comparing the stream's source id
  with the unidirectional generator's stream id
  (`ui/src/transportWorker.ts:255-286`), not by which generator
  delivered the stream. A unidirectional stream whose source id differs is
  wrapped as bidirectional and has no writer, so the session fails
  (`TransportSession.UnidirectionalAcceptNeedsMatchingId`); a stream with
  source id 0 is treated as unidirectional whichever generator produced it
  (`TransportSession.FirstSourceZeroIsUnidirectional`).
- The ping/pong keepalive exists only in the earlier worker
  (`transportWorker.bak.ts`); the current worker sends no pings.
- Aborting a stream clears its maps; waiters for a buffer are not rejected.
- The EVT3 loop starts at 16-bit word 34, so the first 68 bytes of every
  buffer are skipped (`Evt3.RenderSkipsFirst68Bytes`,
  `Evt3.DecodeIgnoresFront`).
- A vector event stamps a single pixel, the cursor's, however many bits
  its mask sets (`Evt3.VectorStampsOnePixel`).
- The page keeps 16 bits of the device id in a source id, the server 24
  (`Interop.SourceIdDisagreesAt16Bits`).

## Model

| member | source | states |
|---|---|---|
| ServerProtocol.StreamDescription | src/protocol.rs:127-137 | the 12-byte stream description reads back, word by word, as the stream id, the recommended buffer count and the maximum length |
| ServerProtocol.ToBytes | src/protocol.rs:109-124 | a serialization failure and a serialized message whose prefixed length exceeds 1 MiB are errors (the latter carrying the length), and exactly those; an accepted message fits in 1 MiB |
| ServerProtocol.ToBytesIsFrame | src/protocol.rs:109-124 | an accepted message is a well-formed frame whose 4-byte little-endian prefix counts itself and whose payload is the JSON text |
| Framing.PrefixedIsFrame | src/protocol.rs:110-113 | prefixing a payload with its total length gives a frame whose prefix announces its own length and whose payload reads back unchanged |
| Router.NextClientId | src/client.rs:30-34 | the client id counter wraps to 0 exactly after 0xffffffff and otherwise moves on by one |
| Router.RemoveClient | src/client.rs:84-94 | the swap-and-pop compaction leaves exactly the other clients' entries, in their order, and counts the removed ones |
| Router.Cleanup | src/client.rs:595-610 | the connection's cleanup keeps every stream; afterwards no list names the client, every other client's entry is still listed and nothing new appears |
| Router.CleanupForgetsClient | src/client.rs:595-610 | after the cleanup the client is listed under no stream, and no stream lists a client twice |
| Router.WithoutKeepsDistinct | src/client.rs:84-94 | removing a client keeps a duplicate-free list duplicate-free and adds no entry |
| Router.Register | src/client.rs:162-177 | StartStream appends the client to a known stream exactly when it is not listed there yet; an unknown stream or a listed client changes nothing |
| Router.RegisterKeepsDistinct | src/client.rs:162-177 | registration never lists a client twice under one stream |
| Router.Forward | src/client.rs:46-80 | every packet received goes to the stack; without the filter every packet is written when no write fails, and exactly the packets up to the first failing write otherwise |
| Router.ForwardWritesChanges | src/client.rs:51-67 | with only_send_if_different the packets written are exactly those differing from the previous packet written |
| Router.RepeatedPacketWrittenOnce | src/client.rs:51-67 | a packet repeated three times on the record-state stream is written once |
| ServerReassembler.Initial | src/client.rs:507-509 | the message buffer is 1 MiB long and starts empty with no known length |
| ServerReassembler.Messages | src/client.rs:529-570 | the inner message loop keeps the offset within the buffer, hands over only payloads of complete messages, and stops on a handler error |
| ServerReassembler.KnownLength | src/client.rs:533-535 | once four bytes are in, the length the loop uses is that of the client's first pending message |
| ServerReassembler.FrontMessage | src/client.rs:536-569 | a complete first message is handed over and shifted out, and the remaining bytes still spell the remaining messages |
| ServerReassembler.DrainHandlesComplete | src/client.rs:529-570 | the message loop hands over, in order, the payloads of exactly the complete pending messages, then waits |
| ServerReassembler.Receive | src/client.rs:522-528 | a read keeps the buffer's size, and only the last payload handed over can be one whose handling failed |
| ServerReassembler.Feed | src/client.rs:522-578 | across any number of reads, only the last payload handed over can be one whose handling failed, and then the connection ends |
| ServerReassembler.FeedHandlesEveryMessage | src/client.rs:522-578 | however the reads split the client's stream, every message that fits in the buffer is handled once, in order, and the loop keeps running |
| ServerReassembler.HandlesEveryMessage | src/client.rs:507-578 | from a fresh connection the whole stream of well-formed messages is handled, whatever the read sizes |
| Catalogue.Convert | src/client.rs:377-410 | exactly the requested recordings that are complete without a zip archive become queued; every other recording is left as it was |
| Catalogue.CancelConvert | src/client.rs:411-427 | every queued recording becomes complete with its size and zip flag, nothing else changes, and the broadcast flag is set exactly when the list changed |
| Catalogue.Merge | src/main.rs:506-554 | a rescanned complete recording keeps the queued or converting status the catalogue lists for its name; every other scanned recording is kept as read |
| Catalogue.Refresh | src/main.rs:506-587 | a changed directory replaces the catalogue and broadcasts; in the same directory the merged list replaces it, broadcast when it differs or when forced |
| Catalogue.StateOfEntry | src/main.rs:515-518 | in a catalogue with one entry per name the state looked up for an entry's name is that entry's state |
| Catalogue.FirstToConvert | src/main.rs:617-632 | the position where the conversion task's walk stops: the first queued recording without a zip archive, or the end |
| Catalogue.Pick | src/main.rs:613-649 | queued recordings with a zip archive before the stop become complete, the first queued one without becomes converting and is named, later ones are untouched; changed says some queued recording was met; at most one recording is converting afterwards |
| Catalogue.Finish | src/main.rs:667-676 | in the same data directory every converting recording becomes complete with its size and flag; otherwise the catalogue is kept |
| Catalogue.LifeCycle | src/main.rs:606-700 | a complete recording requested for conversion is queued, then converting, then complete again |
| ServerMain.LastIndexOf | src/main.rs:748 | the position of the last occurrence of a character, or none when it does not occur |
| ServerMain.StripPort | src/main.rs:748-762 | the host sent for the certificate is a prefix of the Host header |
| ServerMain.StripPortSpec | src/main.rs:748-762 | the part after the last ':' is cut off exactly when it is all ASCII digits; otherwise the host is kept whole |
| ServerMain.StripPortWithoutColon | src/main.rs:761 | a host without ':' is kept |
| ServerMain.StripPortOfAddressWithPort | src/main.rs:748-762 | a port is stripped from "[::1]:8080", giving "[::1]" |
| ServerMain.StripPortOfAddress | src/main.rs:748-762 | "[::1]" keeps its colons, since "1]" is not all digits |
| ServerMain.Certificate | src/main.rs:763-822 | a live endpoint is reused unchanged; an endpoint older than seven days is replaced on its old port; an unknown host gets the next port, which fails only when the u16 counter would overflow; other hosts are untouched |
| ServerMain.CertificateKeepsPortsValid | src/main.rs:763-822 | no two hosts ever share a port and every port lies between the first port and the counter |
| ServerMain.CertificateIdempotent | src/main.rs:763-822 | a second request for the same host at the same time returns the same endpoint and changes nothing |
| ServerMain.NewDevices | src/main.rs:280-295 | the devices kept are exactly the listed ones with a readable serial whose bus and address match no known device |
| ServerMain.AssignIds | src/main.rs:298-314 | each device that opens gets the counter, which then moves on modulo 2^24 |
| ServerMain.AssignedIdsDistinct | src/main.rs:298-314 | up to 2^24 devices opened in a row get distinct ids |
| Recordings.Renamed | src/recordings.rs:77-84 | a name ending in ".write" loses that extension; any other name is kept |
| Recordings.ClassifyRecording | src/recordings.rs:65-126 | hidden files and non-files are ignored; a recognised file gives its recording name, which followed by the type's suffix is the renamed file name, its type and its size |
| Recordings.ClassifyRecordingRoundTrip | src/recordings.rs:85-115 | a recording file named after a recording and a type is classified back to that name, type and size |
| Recordings.ClassifyConverted | src/recordings.rs:128-158 | a converted file counts exactly when it is a visible regular file, not being written, ending in ".zip", and gives the name without ".zip" |
| Recordings.Classified | src/recordings.rs:170-215 | the classified files of a listing are exactly the recognised entries |
| Recordings.Aggregate | src/recordings.rs:167-215 | the table has one entry per recording name found |
| Recordings.AggregateKeepsLast | src/recordings.rs:173-187 | each slot of a name holds the size of the last file of that type listed for it, or nothing |
| Recordings.StateOf | src/recordings.rs:255-306 | a recording is complete exactly when all four files are present, carrying its zip flag; its size is the sum of the present files' sizes |
| Recordings.StateFromLast | src/recordings.rs:170-306 | the state of a name agrees with the last file of each type listed for it |
| Recordings.Zipped | src/recordings.rs:216-254 | the names with a zip archive are exactly those of the accepted converted files |
| Recordings.Initialize | src/recordings.rs:160-317 | a missing directory gives no recordings; otherwise one recording per name found, sorted strictly by name, in the state of its files |
| Recordings.CompleteIffAllFour | src/recordings.rs:255-306 | a listed recording is complete exactly when a file of each of the four types was found for its name |
| Recordings.SortedNames | src/recordings.rs:309 | the sorted names are strictly increasing and are exactly the table's names |
| Bytes.ReadLeU32 | src/protocol.rs:133-135 | reading back a little-endian u32 gives the value written |
| Bytes.LeReadU32 | src/client.rs:534 | re-encoding a little-endian u32 that was read gives the same four bytes |
| Bytes.LeU32Injective | src/protocol.rs:133-135 | different u32 values are encoded as different bytes |
| Bytes.ReadLeU16 | src/device.rs:238-243 | reading back a little-endian u16 gives the value written |
| Device.StreamIdOf | src/device.rs:13-17 | a stream id is the stream index in the low byte above which sit the low 24 bits of the device id |
| Device.StreamIdInjective | src/device.rs:13-17 | two stream ids are equal exactly when their indices and the low 24 bits of their device ids are |
| Device.HighDeviceIdsCollide | src/device.rs:15 | device ids that differ only above bit 24 get the same stream ids |
| Device.DataLength | src/device.rs:229-231 | a packet carries all pending event bytes, or as many as fit in 4 MiB after the 34-byte header |
| Device.Packet | src/device.rs:229-245 | the packet announces its own length, carries the decoder state's time, overflows, time high and low, cursor and polarity and the end time in the header and the first event bytes after it, and fits in 4 MiB |
| Device.ReadBack | src/device.rs:235-243 | each header field, the two 8-byte times included, reads back at its offset as the value written |
| Device.Distribute | src/device.rs:216-259 | the packets go to the subscribers with room, in router order, as many as the stack had buffers; each is the same packet; a buffer whose subscriber has no room goes back, so no buffer is lost and the stack stays valid |
| BufferStack.New | src/stack.rs:11-28 | a new stack holds `length` empty buffers, all counted as shrunk, with every sample at `length` |
| BufferStack.Advance | src/stack.rs:31-36 | one elapsed window moves the sample index on cyclically and records the stack size there |
| BufferStack.UpdateSamples | src/stack.rs:30-37 | after some windows the latest samples, going back, all hold the current size; the buffers are untouched |
| BufferStack.FullCycleForgets | src/stack.rs:30-37 | once as many windows as samples have passed every sample is the current size |
| BufferStack.Push | src/stack.rs:39-42 | push appends the buffer on top and leaves the shrunk mark as it was |
| BufferStack.Pop | src/stack.rs:44-53 | pop returns the top buffer exactly when the stack is not empty, and lowers the shrunk mark and the current sample to the new size |
| BufferStack.LastInFirstOut | src/stack.rs:39-53 | a pop right after a push gives back the pushed buffer and the buffers below it |
| BufferStack.SeqMin | src/stack.rs:57-61 | the running minimum is one of the samples and no sample is below it |
| BufferStack.ShrinkUnused | src/stack.rs:55-69 | when the running minimum exceeds the shrunk mark exactly the buffers between the two are cleared and the mark moves up; the number of buffers never changes and every buffer below the mark is empty |
| Evt3.New | ui/extension/src/lib.rs:28-43 | a new renderer has every pixel idle (the 2 * MAXIMUM_DELTA sentinel) and all decode state at zero |
| Evt3.TimeOf | ui/extension/src/lib.rs:135-138 | time low, time high and the overflow count occupy disjoint bit fields of the reconstructed time |
| Evt3.Advance | ui/extension/src/lib.rs:139-141 | the reconstructed time is adopted only when it does not go back |
| Evt3.Step | ui/extension/src/lib.rs:75-172 | one word never moves the time back and keeps the fields in their widths and the frame's size; an address-Y word sets y to its low 11 bits and changes nothing else; address-X and vector-base words set x to the low 11 bits and the polarity to bit 11, and a vector base writes no pixel; unused kinds change nothing |
| Evt3.Address | ui/extension/src/lib.rs:80-96 | the cursor takes the low 11 bits and the polarity bit 11, and at most the pixel under the new cursor changes, only when it is inside the frame and only for an address-X event |
| Evt3.AddressStampsOnePixel | ui/extension/src/lib.rs:80-92 | an address-X event inside the frame stamps exactly the pixel under the new cursor with the current time and the word's polarity; outside the frame no pixel changes |
| Evt3.StepWritesOnlyInFrame | ui/extension/src/lib.rs:80-130 | whatever the word, a pixel changes only when the cursor is inside the frame, and only the pixel under it |
| Evt3.Vector | ui/extension/src/lib.rs:97-130 | a vector event outside the frame changes nothing; inside it, only the cursor's pixel can change, not at all when no bit within the remaining width is set, and the cursor moves on by the event's width with u16 wrap-around |
| Evt3.TimeHighForward | ui/extension/src/lib.rs:148-152 | a time-high word less than 2^11 ahead is adopted with time low reset |
| Evt3.TimeHighWraps | ui/extension/src/lib.rs:153-157 | a time-high word more than 2^11 behind counts an overflow and is adopted |
| Evt3.TimeHighIgnoresOtherJumps | ui/extension/src/lib.rs:145-157 | any other time-high jump leaves time high, time low and the overflow count unchanged |
| Evt3.TimeHighFollowsCounter | ui/extension/src/lib.rs:145-165 | when the camera's 24-bit high counter moves forward by less than 2^11, the decoder's overflows and time high follow it |
| Evt3.TimeLowCompletesTime | ui/extension/src/lib.rs:131-143 | once the high part follows the counter, a new time-low word makes the decoder's time the camera's time unless that would go back |
| Evt3.VectorStampsOnePixel | ui/extension/src/lib.rs:97-113 | a 12-bit vector event inside the frame writes only the cursor's pixel, with the current time when any bit within the remaining width is set, whatever bits are set, and moves the cursor on by 12 with u16 wrap-around |
| Evt3.Decode | ui/extension/src/lib.rs:70-173 | decoding a range of words keeps the renderer valid and never moves the time back |
| Evt3.Rebase | ui/extension/src/lib.rs:174-187 | the rebasing loop leaves the time at most MAXIMUM_DELTA past the origin and changes nothing when it already is |
| Evt3.RebaseInSteps | ui/extension/src/lib.rs:174-175 | the origin moves in whole steps of MAXIMUM_DELTA, and stops as soon as the time is close enough |
| Evt3.Render | ui/extension/src/lib.rs:69-188 | render fails exactly when it would read past the buffer; otherwise the time does not go back and ends within MAXIMUM_DELTA of the origin |
| Evt3.RenderWithinBuffer | ui/extension/src/lib.rs:69-74 | a length no larger than the buffer never reads past it |
| Evt3.DecodeIgnoresFront | ui/extension/src/lib.rs:70 | the decoded words depend only on the bytes from byte 68 on |
| Evt3.RenderSkipsFirst68Bytes | ui/extension/src/lib.rs:70 | two buffers that agree from byte 68 on render identically, so the first 68 bytes of a packet (its 34-byte header and 34 event bytes) are never decoded |
| BufferPool.Fill | ui/src/transportWorker.ts:25-28 | a new pool holds `bufferCount` free buffers of `bufferSize` bytes and no waiter |
| BufferPool.Take | ui/src/transportWorker.ts:113-120 | the oldest free buffer is handed out when there is one; otherwise the waiter slot is armed and nothing is handed out |
| BufferPool.TakeConserves | ui/src/transportWorker.ts:113-116 | taking a buffer neither creates nor loses one |
| BufferPool.Give | ui/src/transportWorker.ts:354-366 | a returned buffer resolves the waiter exactly when one is registered and is queued otherwise; no waiter remains |
| Reassembler.Create | ui/src/transportWorker.ts:16-33 | a new stream has no current buffer and a pool of `bufferCount` buffers of `bufferSize` bytes |
| Reassembler.Next | ui/src/transportWorker.ts:106-111 | `next` leaves the stream coherent, and suspends for a buffer only when the pool is empty |
| Reassembler.ResumeBuffer | ui/src/transportWorker.ts:46-58 | a buffer handed to a suspended `nextBuffer` resumes `next` or the carry-over with the stream coherent |
| Reassembler.NextWithBuffer | ui/src/transportWorker.ts:35-104 | every branch of `nextWithBuffer` leaves the stream coherent: a complete frame is delivered without a read, extra bytes are carried over, otherwise it reads |
| Reassembler.Read | ui/src/transportWorker.ts:61-68 | the read either suspends for exactly the bytes up to the frame end (or buffer end) or fails as the view constructor and a zero-length read do |
| Reassembler.ResumeRead | ui/src/transportWorker.ts:69-104 | the end of the stream is reported exactly when the read says done; otherwise the bytes are written at the offset and the stream stays coherent |
| Reassembler.TakeForCarry | ui/src/transportWorker.ts:90 | the carry-over suspends for a buffer only when the pool is empty |
| Reassembler.Carry | ui/src/transportWorker.ts:95-103 | the old buffer is delivered exactly when the bytes past the frame fit in the new one, which then starts with those bytes |
| Reassembler.FrameOf | ui/src/transportWorker.ts:36-43 | the frame a delivered buffer holds is the prefix whose length its first word announces |
| ReassemblerProof.Run | ui/src/transportWorker.ts:35-120 | from any state satisfying the drive invariant, with enough steps, the stream delivers every remaining frame in order and then closes |
| ReassemblerProof.DeliversEveryFrame | ui/src/transportWorker.ts:35-120 | a new stream with at least two buffers, fed frames that each fit in a buffer, delivers exactly those frames in order and then closes, however the reads split the bytes |
| ReassemblerProof.OneBufferStalls | ui/src/transportWorker.ts:90-103 | with a single buffer, a read that brings in the start of a second frame suspends forever waiting for a buffer |
| ReassemblerProof.PrefixIn | ui/src/transportWorker.ts:36-59 | once the length prefix is in, `nextWithBuffer` delivers the frame or carries on without reading, and the drive still delivers every frame |
| ReassemblerProof.ArrivedFrame | ui/src/transportWorker.ts:72-104 | a read that completes the prefix or adds to a frame of known size leads, in every branch, to every frame being delivered |
| TransportSession.Connect | ui/src/transportWorker.ts:181-204 | a ready transport posts "connected", gives the two stream generators the next two local ids, arms both of their reads and moves the counter on by two |
| TransportSession.Handshake | ui/src/transportWorker.ts:228-244 | the handshake fills exactly twelve bytes and loses nothing of the stream, or fails only when the stream ends before twelve bytes |
| TransportSession.HandshakeCollects | ui/src/transportWorker.ts:228-244 | however the network splits a new stream, the handshake yields exactly its first twelve bytes and leaves the rest, and fails exactly when the stream ends before twelve bytes |
| TransportSession.ParseDescription | ui/src/transportWorker.ts:245-246 | the handshake is read as three 32-bit words: source id, recommended buffer count and maximum length |
| TransportSession.Accept | ui/src/transportWorker.ts:210-286 | a finished generator, a source id already in use, and a receive-only stream given the writer-needing class each end the session, and exactly those; otherwise the stream is registered under the next local id with the handshake's source id, writable exactly when that id differs from the unidirectional generator's local id, the messages source becomes the message stream, no other stream changes, and the session stays consistent (local ids below the counter, source ids distinct); the stream's first `next()` runs at once: with no buffers it arms the pool's waiter, otherwise it takes the front buffer and reads into all of it, a zero-length buffer being a rejected read |
| TransportSession.OnReply | ui/src/transportWorker.ts:287-322 | a finished stream leaves both maps; a failed read ends the session; a read on an unregistered stream throws exactly when it is not finished; otherwise the stream's next `next()` is started (`Rearm`), and a delivered buffer is posted, to the main thread exactly for the messages source and to the decode worker otherwise |
| TransportSession.Rearm | ui/src/transportWorker.ts:106-120 | starting a stream's `next()` changes that stream only: without a current buffer it takes the front buffer of the pool, or arms the waiter and suspends on an empty pool; the stream then stands where the reassembler's `next` leaves it |
| TransportSession.OnRead | ui/src/transportWorker.ts:64-103 | a stream's pending read resolving changes that stream only: the end of the stream settles `next()` with done, and a chunk settles it or suspends it for a carry buffer, never reading again within the same `next()` |
| TransportSession.ReturnedBufferResumesRead | ui/src/transportWorker.ts:354-366 | a stream whose pool ran dry resumes with the returned buffer at once and reads into all of it, and the pool stays empty |
| Reassembler.FirstNext | ui/src/transportWorker.ts:106-120 | a `next()` without a current buffer takes the pool's front buffer and reads into all of it, or arms the waiter on an empty pool |
| TransportSession.Reset | ui/src/transportWorker.ts:324-338 | after an error every stream and pending read is forgotten, there is no message stream, "disconnected" is posted, and the local id counter is kept |
| TransportSession.ReturnBuffer | ui/src/transportWorker.ts:354-366 | a returned buffer resumes its stream's suspended `nextBuffer`, which runs on with it, exactly when the waiter is armed, and goes to the back of the pool otherwise; a buffer for an unknown stream is dropped; no other stream changes |
| TransportSession.SendMessage | ui/src/transportWorker.ts:367-378 | a page message is written exactly when a writable message stream is registered and its length prefix lies within the buffer, and the bytes written are the prefixed frame; a buffer shorter than four bytes throws a RangeError; otherwise a stream without a writer throws a TypeError before the prefix is checked, and a prefix past the end a RangeError; without a message stream nothing happens |
| TransportSession.SendPrefixedWritesAll | ui/src/transportWorker.ts:367-378 | a frame built with its own length as prefix is written whole |
| TransportSession.UnidirectionalAcceptNeedsMatchingId | ui/src/transportWorker.ts:255-271 | a receive-only stream whose source id differs from the unidirectional generator's local id is given the bidirectional class, has no writer, and ends the session |
| TransportSession.FirstSourceZeroIsUnidirectional | ui/src/transportWorker.ts:255-286 | on the first connection source id 0 arriving on a bidirectional stream gets the receive-only class and the bidirectional generator is re-armed on the unidirectional reader |
| TransportSession.AcceptStream | ui/src/transportWorker.ts:210-286 | a finished generator throws; a new stream that closes before twelve bytes throws; otherwise the stream is accepted on its first twelve bytes, however the network splits them |
| TransportSession.Apply | ui/src/transportWorker.ts:147-378 | every event of the worker keeps the session consistent and never lowers the local id counter; an accepted stream takes the counter's value and raises it by one; a settled `next()` is handled with the reply it holds, a resolved read resumes the stream reading, a returned buffer goes through `ReturnBuffer`; a failed accept, a failed reply or a failure resets the session |
| TransportSession.FailedAcceptResets | ui/src/transportWorker.ts:214-240 | a finished generator or a stream that closes before its twelve bytes clears both maps and accepts nothing |
| TransportSession.Run | ui/src/transportWorker.ts:147-339 | over any run of events, across errors and reconnections, the local ids given to accepted streams strictly increase, so none is reused |
| EarlierTransport.PingMessage | ui/src/transportWorker.bak.ts:146-153 | the keepalive is the 15-byte JSON text `{"type":"Ping"}` behind a length prefix that counts itself, 19 bytes in all |
| EarlierTransport.IsPong | ui/src/transportWorker.bak.ts:346-351 | a message-stream buffer is a pong exactly when its first word is 8 and its second spells "pong"; a buffer too short for a word it reads throws a RangeError |
| EarlierTransport.ServerPongIsPong | src/client.rs:455 | the eight bytes the server sends as a pong pass the worker's pong check |
| EarlierTransport.PingIsNotPong | ui/src/transportWorker.bak.ts:146-153 | the worker's own ping does not pass the pong check |
| EarlierTransport.OnReplyEarlier | ui/src/transportWorker.bak.ts:329-384 | a pong on the messages source joins the back of the stream's pool (a settled stream has no waiting `nextBuffer`) and is posted nowhere, and the stream's next `next()` is started; any other reply is handled exactly as the current worker handles it |
| EarlierTransport.PongNeverPosted | ui/src/transportWorker.bak.ts:346-359 | the server's pong is never posted to the main thread |
| EarlierTransport.ConnectEarlier | ui/src/transportWorker.bak.ts:195-241 | connecting arms the ping interval, posts "connected" and sets up the generators as the current worker does |
| EarlierTransport.ResetEarlier | ui/src/transportWorker.bak.ts:387-404 | the error path also clears the ping interval |
| EarlierTransport.Tick | ui/src/transportWorker.bak.ts:196-217 | the interval writes the ping exactly when it is armed and a writable message stream is registered, and a registered stream without a writer throws a TypeError |
| EarlierTransport.NoPingAfterReset | ui/src/transportWorker.bak.ts:392-395 | after an error no ping is written until the next connection |
| EarlierTransport.SendMessageEarlier | ui/src/transportWorker.bak.ts:434-444 | the earlier worker writes a page message whole exactly when a writable message stream is registered |
| EarlierTransport.SendIterationsAgreeOnFrames | ui/src/transportWorker.bak.ts:434-444 | both iterations write the same bytes for a buffer that is exactly one frame; for a longer buffer the current one writes only the prefixed frame while the earlier one writes the trailing bytes too |
| ClientProtocol.SourceIdOf | ui/src/protocol.svelte.ts:150-155 | the page's source id is below 2^24, its low byte is the stream index's low byte and its upper part is the device id modulo 2^16 |
| ClientProtocol.SourceIdCollisions | ui/src/protocol.svelte.ts:150-155 | two device/stream pairs share a source id exactly when their indices agree modulo 256 and their device ids modulo 2^16 |
| ClientProtocol.MessageToServer | ui/src/protocol.svelte.ts:135-148 | a page message is a frame of the JSON length plus four bytes whose payload is the JSON text |
| ClientProtocol.OnServerMessage | ui/src/protocol.svelte.ts:22-48 | a message buffer fails exactly when it is too short for its prefix, the prefix points outside it, or the payload does not parse; otherwise the page gets the bytes between the prefix and the announced end and returns the whole buffer to its stream |
| ClientProtocol.InboundFrame | ui/src/protocol.svelte.ts:22-48 | a frame at the front of a pooled buffer gives back exactly its payload whatever follows it |
| ClientProtocol.FirstDevice | ui/src/protocol.svelte.ts:163-173 | the device the loop stops at is the first one with the id, and none is found exactly when no device has it |
| ClientProtocol.StartStream | ui/src/protocol.svelte.ts:157-234 | a missing device or a negative index reports "not found", an index past the device's streams "too few streams"; for a stream that exists, the call succeeds exactly when its source id is known or it is an EVT3 stream: a known source id returns its pipeline unchanged, a new EVT3 stream gets a pipeline of the stream's width and height registered under its source id, and any other new stream is "not implemented" |
| ClientProtocol.StartStreamTwice | ui/src/protocol.svelte.ts:177-181 | starting a stream again returns the same pipeline and registers nothing more |
| ClientProtocol.StartStreamKeepsRegistryValid | ui/src/protocol.svelte.ts:189 | every pipeline stays filed under its own source id |
| Interop.DescriptionRoundTrip | src/protocol.rs:127-137 | the 12-byte description the server writes is parsed by the transport worker back into its stream id, buffer count and maximum length |
| Interop.SourceIdAgreesBelow16Bits | ui/src/protocol.svelte.ts:150-155 | the page's source id and the server's stream id (`StreamId::new`, src/device.rs:13-17) agree for device ids below 2^16 |
| Interop.SourceIdDisagreesAt16Bits | ui/src/protocol.svelte.ts:150-155 | device 65536's first stream is filed under 2^24 by the server but looked up under 0, the id of device 0's first stream, by the page |
| Interop.PageFrames | ui/src/protocol.svelte.ts:135-148 | the frames of a run of page messages carry the messages as payloads, each within the server's message buffer |
| Interop.PageMessagesReachServer | src/client.rs:522-578 | page messages sent back to back reach the server's handler unchanged and in order however the network splits them |
| Interop.ServerMessagesReachPage | ui/src/transportWorker.ts:35-120 | server messages written back to back on the message stream come out of the transport worker's reassembler as the same frames, whose payloads are the messages |
| Text.LessIrreflexive | src/client.rs:379 | no name orders before itself |
| Text.LessTransitive | src/client.rs:379 | the name order is transitive |
| Text.LessTotal | src/client.rs:379 | of two different names one orders before the other |
| Text.PrefixLess | src/client.rs:379 | a proper prefix orders before the longer name |
| Text.Insert | src/client.rs:379 | inserting a name into a sorted list keeps it sorted and adds exactly that name |
| Text.InsertFront | src/client.rs:379 | a name not after the first of a sorted list can lead it |
| Text.InsertBehind | src/client.rs:379 | a sorted list with the name inserted behind its first element stays sorted |
| Text.Sort | src/recordings.rs:309 | sorting names gives a sorted permutation of them |
| Text.SortedDistinct | src/recordings.rs:309 | a sorted list without repetitions is strictly sorted |
| Text.StrictlySortedIndex | src/recordings.rs:309 | in a strictly sorted list the order of names is the order of their positions |
| Utilities.TDiv | ui/src/utilities.ts:53 | `bigint` division truncates toward zero for either sign of the dividend |
| Utilities.DurationParts | ui/src/utilities.ts:52-59 | hours, minutes, seconds and deciseconds add up to the duration in whole deciseconds; for a non-negative duration minutes and seconds are below 60 and deciseconds below 10 (for a negative one all parts are non-positive) |
| Utilities.Digits | ui/src/utilities.ts:60-64 | `toFixed(0)` of a non-negative integer is a non-empty string of decimal digits, one digit below 10 and two below 100 |
| Utilities.DigitsRoundTrip | ui/src/utilities.ts:60-64 | the printed digits read back as the number |
| Utilities.PadStart2 | ui/src/utilities.ts:60-64 | padding makes a field at least two characters long by adding zeros in front, ends with the field, and leaves fields of two or more characters unchanged |
| Utilities.LeadingZero | ui/src/utilities.ts:60-64 | the padding zero does not change the value a field reads back as |
| Utilities.DurationToString | ui/src/utilities.ts:52-65 | the label of a duration has its '.' and both ':' at fixed places from the end |
| Utilities.LabelRoundTrip | ui/src/utilities.ts:60-64 | the label has its separators at fixed places from the end, and its fields read back as the hours, minutes, seconds and deciseconds |
| Utilities.DurationToStringRoundTrip | ui/src/utilities.ts:52-65 | the label of a non-negative duration reads back to the duration in whole deciseconds |
| Utilities.SizeUnitOf | ui/src/utilities.ts:36-50 | the unit is the largest of B, kB, MB, GB and TB that the size reaches, so the printed number is below 1000 except in terabytes |
| Utilities.SizeUnitUnique | ui/src/utilities.ts:36-50 | no other unit satisfies both bounds |
| Utilities.NextUnique | ui/src/utilities.ts:67-71 | the counter is incremented first, and the value returned is the new counter |
| Utilities.Uniques | ui/src/utilities.ts:67-71 | successive calls return values above the starting counter |
| Utilities.UniquesIncrease | ui/src/utilities.ts:67-71 | the values handed out start at the counter plus one and strictly increase, so none repeats |
| Utilities.Clamp | ui/src/utilities.ts:73-75 | a value within the bounds is kept, one below the minimum becomes the minimum and one above the maximum the maximum; with crossed bounds the maximum wins |
| Utilities.GbDecimalsAsWritten | ui/src/utilities.ts:25-34 | as written, only 0 or 2 decimals are ever printed |
| Utilities.GbDecimals | ui/src/utilities.ts:25-34 | the decimals the three branches intend: 0, 1 or 2 |
| Utilities.GbThreeSignificantDigits | ui/src/utilities.ts:25-34 | with the intended decimals, every size from 1 GB to below 1000 GB prints with three significant digits |
| Utilities.GbDecimalsAsWrittenSkipsOne | ui/src/utilities.ts:30-33 | as written, one decimal is never chosen and 10 GB prints with four significant digits, where the intended code prints one decimal |
| Colormap.ToUint8 | ui/src/painter.ts:291-295 | a component stored into the texture array keeps a byte value, stores `NaN` as 0 and any integer modulo 256 |
| Colormap.Pack | ui/src/painter.ts:285-305 | the two packing loops produce the reference layout, the off colours reversed followed by the on colours, four bytes each |
| Colormap.OffStep | ui/src/painter.ts:290-297 | each turn of the off loop stores the next off colour just below those already stored |
| Colormap.OnStep | ui/src/painter.ts:298-305 | each turn of the on loop stores the next on colour just after those already stored |
| Colormap.PackSlots | ui/src/painter.ts:285-305 | the texture row has four bytes per colour; slot k of the first part holds off colour (off length - 1 - k), and slot (off length + j) holds on colour j |
| Painter.HexPrefixLength | ui/src/painter.ts:76-78 | `parseInt` reads exactly the longest run of leading hexadecimal digits |
| Painter.ParseIntHex | ui/src/painter.ts:76-78 | a number comes out only when the string holds a hexadecimal digit; a string starting with a nonzero hexadecimal digit always gives a non-negative number |
| Painter.ParseHexPair | ui/src/painter.ts:76-78 | two hexadecimal digits of either case parse to the byte they spell |
| Painter.ParseNotHex | ui/src/painter.ts:76-78 | a pair that starts with neither a digit, a sign nor white space parses to `NaN` instead of failing |
| Painter.HexToRgba | ui/src/painter.ts:72-92 | the input fails exactly when it does not start with '#' or is neither 7 nor 9 characters long; seven characters give three parsed pairs and alpha 255, nine give four parsed pairs |
| Painter.HexToRgbaOfDigits | ui/src/painter.ts:74-81 | '#' and six hexadecimal digits give the three bytes they spell and alpha 255 |
| Painter.HexToRgbaOfDigitsAlpha | ui/src/painter.ts:82-89 | '#' and eight hexadecimal digits give the four bytes they spell |
| Painter.HexToRgbaRoundTrip | ui/src/painter.ts:74-81 | a colour written as `#rrggbb` reads back as itself, opaque |
| Painter.HexToRgbaRoundTripAlpha | ui/src/painter.ts:82-89 | a colour written as `#rrggbbaa` reads back as itself |
| Painter.DefaultConfiguration | ui/src/painter.ts:99-102 | a new context has two-colour on and off colormaps that share the dark end #191919, end in #FBBC05 and #4285F4, and await an upload |
| Painter.DefaultColors | ui/src/painter.ts:100-101 | the three default colour strings parse to their opaque components |
| Painter.UploadColormap | ui/src/painter.ts:285-324 | the texture row is uploaded exactly when the colormap changed, it is the packed row of that configuration, and afterwards the flag is clear with the colours kept |
| Painter.UploadOnce | ui/src/painter.ts:285-324 | once uploaded, painting again uploads nothing and changes nothing |
| Painter.DefaultUpload | ui/src/painter.ts:285-322 | a new context's first upload is 16 bytes: the blue end, the dark colour twice, then the yellow end |
| PaintQueue.HandleBuffer | ui/src/painter.ts:400-413 | after a frame is queued the queue holds the newest four, and the frames returned to the decoder are the older ones, oldest first, none lost or duplicated |
| PaintQueue.FrameCount | ui/src/painter.ts:355-363 | a tick takes every waiting frame when nothing was painted before; otherwise it takes the rounded frame count the elapsed time asks for, clipped to between 0 and the frames waiting |
| PaintQueue.Tick | ui/src/painter.ts:355-398 | a tick shifts that many frames off the front and returns every one to the decoder; only the last is painted, and a tick that takes no frame changes nothing |
| EventPainter.NewContext | ui/src/eventPainter.ts:73-100 | a new canvas context has no colormap cached, an empty previous time and the overlay's current text |
| EventPainter.Paint | ui/src/eventPainter.ts:277-319 | the colormap is packed and uploaded exactly when the selected index differs from the cached one, and that fails exactly when the index is outside the table; the index is then cached; the overlay is rewritten exactly when the displayed time changed |
| EventPainter.PaintTwice | ui/src/eventPainter.ts:277-319 | painting again with the same colormap and time uploads nothing and leaves the context as it was |
| EventPainter.OverlayShowsLastTime | ui/src/eventPainter.ts:316-319 | once the overlay shows the previous time, every paint leaves it showing the frame's time |
| EventPainter.FirstEmptyTimeKeepsOverlay | ui/src/eventPainter.ts:316-319 | a first frame whose displayed time is the empty string leaves a new context's non-empty overlay text in place, since the empty string is the initial previous time |
| Attachments.Empty | ui/src/painter.ts:346-347 | a new painter has no targets and its id counter at 0 |
| Attachments.Attach | ui/src/painter.ts:415-427 | attaching fails exactly when the target is already attached; otherwise the target is appended with the counter's value as its id, which is returned, and the counter moves on |
| Attachments.FirstWithId | ui/src/painter.ts:430-435 | the search stops at the first entry with the id, and finds none exactly when no entry has it |
| Attachments.Detach | ui/src/painter.ts:429-437 | detaching fails exactly when no entry has the id; otherwise one entry is removed and the counter is kept |
| Attachments.AttachKeepsValid | ui/src/painter.ts:415-427 | attaching keeps ids increasing and below the counter and targets distinct, and the new id was not in use |
| Attachments.AttachIds | ui/src/painter.ts:415-427 | after an attach the ids in use are the old ones and the new one |
| Attachments.DetachKeepsValid | ui/src/painter.ts:429-437 | detaching keeps the registry valid and the id is gone afterwards |
| Attachments.DetachKeepsOthers | ui/src/painter.ts:429-437 | every entry with another id survives a detach |
| Attachments.AttachThenDetach | ui/src/painter.ts:415-437 | detaching the id just handed out restores the entries, with the counter moved on |
| SamplePainter.NewCollection | ui/src/samplePainter.ts:22-30 | a new collection is empty with one value list per curve of each chart |
| SamplePainter.Stale | ui/src/samplePainter.ts:38-51 | the loop drops exactly the leading samples at least a range older than the new one and stops at the first younger one |
| SamplePainter.Push | ui/src/samplePainter.ts:32-70 | pushing converts the time to deciseconds, drops the stale samples from every parallel list, then appends the new sample's time, labels and per-curve values |
| SamplePainter.PushKeepsShape | ui/src/samplePainter.ts:32-70 | pushing a well-shaped sample keeps every list parallel |
| SamplePainter.PushKeepsWindow | ui/src/samplePainter.ts:38-54 | with samples in time order and a positive range, the window stays in time order, ends with the new sample, and holds exactly the samples less than a range older than it |
| SamplePainter.Window | ui/src/samplePainter.ts:38-54 | the same sliding-window property on the times alone |
| SamplePainter.NewPainter | ui/src/samplePainter.ts:261-281 | a new sample painter has no collection for range 0 and a new, well-shaped collection for each further range, charts marked for update, and no element attached |
| SamplePainter.FirstMismatch | ui/src/samplePainter.ts:294-307 | the validation loop stops at the first chart whose curve count the sample does not match |
| SamplePainter.PushSample | ui/src/samplePainter.ts:283-319 | a sample is rejected exactly when its chart or curve counts disagree with the layout (a wrong chart count reported as such), before anything changes; otherwise every collection receives it and the charts are marked for an update |
| SamplePainter.PushSampleKeepsShape | ui/src/samplePainter.ts:283-319 | accepted samples keep every collection in the chart layout |
| SamplePainter.Views | ui/src/samplePainter.ts:218-246 | the charts built are those with a positive range index, in layout order, each under its own name and range |
| SamplePainter.UpdateHtml | ui/src/samplePainter.ts:192-248 | nothing happens while the hash is unchanged; otherwise a layout whose names disagree with the charts, or a shown chart without a collection, throws, and exactly those; else the charts are rebuilt and the hash recorded |
| SamplePainter.UpdateHtmlOnce | ui/src/samplePainter.ts:193-195 | a second update right after a successful one changes nothing |
| SamplePainter.UpdateHtmlShowsVisible | ui/src/samplePainter.ts:218-246 | a chart is shown exactly when its range index is positive |
| SamplePainter.Attach | ui/src/samplePainter.ts:321-333 | an attached element throws and changes nothing; otherwise the id is spent, and the element is registered with an updated context exactly when that update succeeds |
| SamplePainter.AttachKeepsRegistered | ui/src/samplePainter.ts:321-333 | registry and contexts stay in step whether or not attaching throws |
| SamplePainter.Detach | ui/src/samplePainter.ts:335-347 | detaching fails exactly for an id not attached, and otherwise removes only that element's context |
| SamplePainter.DetachKeepsRegistered | ui/src/samplePainter.ts:335-347 | registry and contexts stay in step after a detach |
| Recordings.Listing | src/recordings.rs:255-306 | one recording per directory name, in the given order, each in the state its files and zip archive give it |
| Catalogue.StateOf | src/main.rs:515-518 | a state is found for a name exactly when the catalogue lists that name |

## Left out

- WebTransport, `fetch`, `Promise.race` and the timers (the 1000 ms
  reconnect delay, the ping interval): the session is modelled as one
  transition per event, with the event as a parameter. A stream's `next()`
  runs from one suspension to the next in a single transition: the
  microtasks of other streams that JavaScript may interleave touch other
  streams' state only.
- tokio tasks, locks and channels: the router, stack and catalogue are
  modelled as values, updated by one call at a time.
- The HTTP server beyond stripping the port from the host header, and
  certificate generation (the certificate hash is a parameter).
- USB drivers and `Device::run` beyond header framing and the distribution of
  samples; `DeviceSampler` and the sysinfo sampler, which call into code
  outside this model.
- File-system effects: directory listings, file sizes and zip archives are
  inputs, and the conversion itself is not modelled.
- JSON: payloads are opaque byte strings, and whether one parses is a
  predicate parameter (`parses`).
- Floating point: the f32 pixel values and the rebasing adjustment in
  `ui/extension/src/lib.rs:176-186` are a parameter (`adjust`); `colormapSplit`; the
  `toFixed` formatting in `sizeToString` and `gbSizeToString`, of which only
  the unit and the number of decimals are modelled; the frame count a tick
  asks for (a rounded float) is an input.
- The sample painter's chart ranges are a parameter; `CHART_RANGES` is not
  part of this model.
- EVK4 sample decoding (`ui/src/evk4SamplesDecoder.ts`), `Date` and `utcString`.
- WebGL, chart.js and the DOM: the painters are modelled by what they keep
  and what they upload.
- The sample painter's `tick`.
- SamplePainter.UpdateHtml: charts destroyed or partly rebuilt before a
  missing collection throws are not modelled; the error is.
- The forwarding of buffers to the decode worker and the decode worker's
  listener (`ui/src/protocol.svelte.ts:49-69`, `190-232`); `stopStream` has
  an empty body.
- Client messages other than those modelled by `Catalogue.Convert` and
  `Catalogue.CancelConvert`.
- ReassemblerProof.Drive: runs on fuel; the theorems give it
  `2 * |bytes| + 2` steps, which every run that delivers all frames needs
  fewer of.
- ReassemblerProof.DeliversEveryFrame: stated for pools of at least two
  buffers, since one buffer can stall (`ReassemblerProof.OneBufferStalls`);
  and for frames that fit a buffer (length between 4 and the capacity).
- Interop.ServerMessagesReachPage: stated for pools of at least two buffers,
  as above.
- ServerMain.Certificate: the `u16` port counter reaching 65535 is modelled
  as an error (`PortsExhausted`) instead of a release-build wrap-around.
- Evt3.Vector: the stamp written at the cursor is stated for 12-bit events
  by `Evt3.VectorStampsOnePixel`, not in its own contract.
- Utilities.DurationToString: only non-negative durations are modelled; a
  negative one gives fields with minus signs, which `padStart` leaves
  unpadded.
- Lengths of strings are counted in code points, where JavaScript's
  `length` counts UTF-16 units: `hexToRgba` on '#' followed by three
  characters outside the Basic Multilingual Plane has length 7 in the page
  and parses, but length 4 in `Painter.HexToRgba` and fails. Only colours
  of ASCII characters are modelled faithfully.
- A finished control stream (`Ok(None)` at src/client.rs:526) is skipped
  without reading, and the connection loop polls the finished stream again
  at once; the model treats the end of the stream as the end of the input
  (`ServerReassembler.Feed` returns), and does not model the polling that
  follows.
- Symbols the core uses but does not define are not part of this model.

## Findings

| source | as written | input that shows it | evidently intended | confidence | as-written member | corrected member |
|---|---|---|---|---|---|---|
| ui/src/utilities.ts:25-34 | the branch for sizes of ten gigabytes or more builds its one-decimal string without returning it (line 31), so control falls through to the two-decimal format | 10000000000 bytes gives "10.00 GB" | "10.0 GB": three significant digits, like the other branches | not executed | Utilities.GbDecimalsAsWritten | Utilities.GbDecimals |
