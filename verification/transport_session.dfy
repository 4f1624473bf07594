/** The accept loop and the message handlers of the browser transport worker
    (`connect` and the worker's `message` listener): the 12-byte stream
    handshake, the stream registry, reply routing, the error reset, buffer
    returns and outbound control messages. WebTransport, `fetch`,
    `Promise.race` and the timers are the environment: each function here is
    one event's state transition. */
module TransportSession {
  import opened Bytes
  import opened Wrappers
  import opened Framing
  import opened Constants
  import opened BufferPool
  import opened Reassembler

  /** Where a registered stream's latest `next()` stands: settled with a
      reply the accept loop has not taken yet, suspended in `nextBuffer` on an
      empty pool, or suspended in a BYOB read of at most `request` bytes. */
  datatype Pending = Settled(reply: Reply) | ForBuffer(resume: Resume) | ForRead(request: nat)

  /** A registered stream; `writable` is false for a `UnidirectionalStream`,
      which has no writer. */
  datatype Registered = Registered(stream: Stream, writable: bool, pending: Pending)

  /** The reassembler outcome a registered stream stands at. */
  function Standing(e: Registered): Outcome
  {
    match e.pending
    case Settled(reply) => Answer(e.stream, reply)
    case ForBuffer(resume) => AwaitBuffer(e.stream, resume)
    case ForRead(request) => AwaitRead(e.stream, request)
  }

  /** The entry a stream takes when its reassembler reaches `o`: the inverse
      of `Standing`. */
  function Started(o: Outcome, writable: bool): (e: Registered)
    ensures Standing(e) == o && e.stream == o.stream && e.writable == writable
  {
    match o
    case Answer(stream, reply) => Registered(stream, writable, Settled(reply))
    case AwaitBuffer(stream, resume) => Registered(stream, writable, ForBuffer(resume))
    case AwaitRead(stream, request) => Registered(stream, writable, ForRead(request))
  }

  /** What a pending promise of `streamIdToPromise` reads: a generator key
      awaits one of the two incoming-stream readers, a stream key awaits its
      own `next()`. */
  datatype Waiter = ReadsUnidirectional | ReadsBidirectional | StreamNext

  datatype Session = Session(
    nextStreamId: nat,
    unidirectionalGenerator: nat,
    bidirectionalGenerator: nat,
    streams: map<nat, Registered>,
    promises: map<nat, Waiter>,
    messageStreamId: Option<nat>)

  /** Why the accept loop throws. */
  datatype Failure =
    | GeneratorDone        // an incoming-stream reader finished
    | ClosedBeforeId       // a new stream closed before its 12 bytes
    | DuplicateSource      // a registered stream already has this source id
    | NoWriter             // `getWriter` on the missing writable side
    | UnknownStream        // `next()` on a stream id that is not registered
    | StreamFailed(error: Error)

  /** A posted worker message. */
  datatype Post =
    | Status(connected: bool)
    | Forward(target: nat, streamId: nat, sourceId: nat, buffer: seq<byte>)

  /** The state before the first connection. */
  function Start(): Session
  {
    Session(0, 0, 0, map[], map[], None)
  }

  /** Every assigned local id is below `nextStreamId`, registered streams keep
      their own id and stand where their reassembler can be resumed,
      registered source ids are pairwise distinct and the message stream, when
      set, is below the counter. */
  predicate Consistent(s: Session)
  {
    && (forall id :: id in s.streams ==> id < s.nextStreamId && s.streams[id].stream.streamId == id)
    && (forall id :: id in s.streams ==> Sound(Standing(s.streams[id])))
    && (forall id :: id in s.promises ==> id < s.nextStreamId)
    && (forall a, b :: a in s.streams && b in s.streams && a != b ==>
          s.streams[a].stream.sourceId != s.streams[b].stream.sourceId)
    && (s.messageStreamId.Some? ==> s.messageStreamId.value < s.nextStreamId)
  }

  /** The transport is ready: two local ids go to the generators, whose reads
      become the first pending promises. */
  function Connect(s: Session): (r: (Session, Post))
    ensures r.0.unidirectionalGenerator == s.nextStreamId
    ensures r.0.bidirectionalGenerator == s.nextStreamId + 1
    ensures r.0.nextStreamId == s.nextStreamId + 2
    ensures r.0.streams == s.streams && r.0.messageStreamId == s.messageStreamId
    ensures r.1 == Status(true)
  {
    (s.(nextStreamId := s.nextStreamId + 2,
        unidirectionalGenerator := s.nextStreamId,
        bidirectionalGenerator := s.nextStreamId + 1,
        promises := s.promises[s.nextStreamId := ReadsUnidirectional][s.nextStreamId + 1 := ReadsBidirectional]),
     Status(true))
  }

  /** The handshake: BYOB reads into a 12-byte buffer until it is full; the
      stream sends `input` and the network splits it by `cuts`. The result is
      the 12 bytes and what the stream still holds. */
  function Handshake(input: seq<byte>, cuts: seq<nat>, filled: seq<byte>): (r: Result<(seq<byte>, seq<byte>), Failure>)
    requires |filled| <= 12
    ensures r.Err? ==> r.error == ClosedBeforeId && |filled| + |input| < 12
    ensures r.Ok? ==> |r.value.0| == 12 && r.value.0 + r.value.1 == filled + input
    decreases |input|
  {
    if |filled| == 12 then Ok((filled, input))
    else if |input| == 0 then Err(ClosedBeforeId)
    else
      var k := ChunkSize(12 - |filled|, |input|, cuts);
      Handshake(input[k..], Later(cuts), filled + input[..k])
  }

  /** The handshake yields exactly the first twelve bytes however they are
      split, and fails exactly when the stream ends first. */
  lemma {:induction false} HandshakeCollects(input: seq<byte>, cuts: seq<nat>, filled: seq<byte>)
    requires |filled| <= 12
    ensures var need := 12 - |filled|;
      Handshake(input, cuts, filled)
        == if |input| < need then Err(ClosedBeforeId)
           else Ok((filled + input[..need], input[need..]))
    decreases |input|
  {
    if |filled| == 12 {
      assert filled + input[..0] == filled && input[0..] == input;
    } else if |input| > 0 {
      var k := ChunkSize(12 - |filled|, |input|, cuts);
      HandshakeCollects(input[k..], Later(cuts), filled + input[..k]);
      if |input| >= 12 - |filled| {
        assert filled + input[..k] + input[k..][..12 - |filled| - k] == filled + input[..12 - |filled|];
        assert input[k..][12 - |filled| - k..] == input[12 - |filled|..];
      }
    }
  }

  /** The three little-endian words of the handshake: source id, recommended
      buffer count and maximum length. */
  function ParseDescription(b: seq<byte>): (r: (nat, nat, nat))
    requires |b| == 12
    ensures r.0 < TWO_32 && r.1 < TWO_32 && r.2 < TWO_32
  {
    (ReadU32(b, 0), ReadU32(b, 4), ReadU32(b, 8))
  }

  /** A generator's read resolved (`generator` is its local id, which tells
      which of the two readers fired). `done` throws; otherwise the handshake
      `description` is parsed, a duplicate source id throws, and the stream's
      class is chosen by comparing the source id with the unidirectional
      generator's local id; a bidirectional class built from a receive-only
      stream has no writable side and throws. The new stream takes
      `nextStreamId`, its first `next()` becomes its pending promise, and the
      generator is re-armed on the reader chosen by the same comparison. The
      first `next()` runs at once: it takes the front buffer of the new pool
      and reads into it, or arms the waiter when the pool is empty. */
  function Accept(s: Session, generator: nat, done: bool, description: seq<byte>): (r: Result<Session, Failure>)
    requires |description| == 12
    requires Consistent(s) && generator in s.promises
    ensures r.Ok? ==> Consistent(r.value)
    ensures r.Ok? ==> r.value.nextStreamId == s.nextStreamId + 1
    ensures r.Ok? ==> r.value.streams.Keys == s.streams.Keys + {s.nextStreamId}
    ensures r.Ok? ==> r.value.streams[s.nextStreamId].stream.sourceId == ReadU32(description, 0)
    ensures r.Ok? ==> forall id :: id in s.streams ==> r.value.streams[id] == s.streams[id]
    ensures r.Ok? ==> (r.value.streams[s.nextStreamId].writable <==> ReadU32(description, 0) != s.unidirectionalGenerator)
    ensures r.Ok? ==>
      r.value.messageStreamId == if ReadU32(description, 0) == MESSAGES_SOURCE_ID then Some(s.nextStreamId) else s.messageStreamId
    ensures r.Ok? ==>
      var e := r.value.streams[s.nextStreamId];
      var count := ReadU32(description, 4);
      var size := ReadU32(description, 8);
      && (count == 0 ==> e.stream.pool == Pool([], true) && e.pending == ForBuffer(ForNext))
      && (count > 0 ==>
            && |e.stream.pool.free| == count - 1 && !e.stream.pool.waiting
            && e.stream.buffer.Some? && |e.stream.buffer.value| == size
            && e.pending == if size == 0 then Settled(Reply.Failed(TypeError)) else ForRead(size))
    ensures done ==> r == Err(GeneratorDone)
    ensures r == Err(DuplicateSource) <==>
      !done && exists id :: id in s.streams && s.streams[id].stream.sourceId == ReadU32(description, 0)
    ensures r == Err(NoWriter) <==>
      && !done && (forall id :: id in s.streams ==> s.streams[id].stream.sourceId != ReadU32(description, 0))
      && ReadU32(description, 0) != s.unidirectionalGenerator && generator == s.unidirectionalGenerator
  {
    if done then Err(GeneratorDone)
    else
      var (sourceId, count, maximumLength) := ParseDescription(description);
      if exists id :: id in s.streams && s.streams[id].stream.sourceId == sourceId then Err(DuplicateSource)
      else
        var unidirectional := sourceId == s.unidirectionalGenerator;
        if !unidirectional && generator == s.unidirectionalGenerator then Err(NoWriter)
        else
          var id := s.nextStreamId;
          var stream := Create(id, sourceId, count, maximumLength);
          FirstNext(stream);
          var entry := Started(Next(stream), !unidirectional);
          assert forall a :: a in s.streams ==> s.streams[a].stream.sourceId != sourceId;
          Ok(s.(nextStreamId := id + 1,
                streams := s.streams[id := entry],
                messageStreamId := if sourceId == MESSAGES_SOURCE_ID then Some(id) else s.messageStreamId,
                promises := s.promises[id := StreamNext][generator := if unidirectional then ReadsUnidirectional else ReadsBidirectional]))
  }

  /** A generator's read resolved, seen from the stream it delivered: a
      finished reader throws, the handshake reads the first twelve bytes of
      `input` as the network splits it by `cuts` and throws when the stream
      closes first, and the description read is then accepted. */
  function AcceptStream(s: Session, generator: nat, done: bool, input: seq<byte>, cuts: seq<nat>): (r: Result<Session, Failure>)
    requires Consistent(s) && generator in s.promises
    ensures done ==> r == Err(GeneratorDone)
    ensures !done && |input| < 12 ==> r == Err(ClosedBeforeId)
    ensures !done && |input| >= 12 ==> r == Accept(s, generator, false, input[..12])
  {
    if done then Err(GeneratorDone)
    else
      HandshakeCollects(input, cuts, []);
      match Handshake(input, cuts, [])
      case Err(e) => Err(e)
      case Ok((description, _)) => Accept(s, generator, false, description)
  }

  /** `streamIdToPromise.set(streamId, stream.next())`: the stream's next
      `next()` runs to its first suspension and becomes its pending promise.
      Without a current buffer it takes the front buffer of the pool, or arms
      the waiter when the pool is empty; nothing else changes. */
  function Rearm(s: Session, streamId: nat): (r: Session)
    requires Consistent(s) && streamId in s.streams
    requires Coherent(s.streams[streamId].stream)
    ensures Consistent(r)
    ensures r == s.(streams := r.streams, promises := s.promises[streamId := StreamNext])
    ensures r.streams.Keys == s.streams.Keys
    ensures forall id :: id in s.streams && id != streamId ==> r.streams[id] == s.streams[id]
    ensures var before := s.streams[streamId]; var after := r.streams[streamId];
      && after.writable == before.writable
      && Standing(after) == Next(before.stream)
      && (before.stream.buffer.None? && before.stream.pool.free != [] ==>
            after.stream.pool.free == before.stream.pool.free[1..] && after.stream.buffer == Some(before.stream.pool.free[0]))
      && (before.stream.buffer.None? && before.stream.pool.free == [] ==>
            after.stream.pool == Pool([], true) && after.pending == ForBuffer(ForNext))
  {
    var entry := s.streams[streamId];
    FirstNext(entry.stream);
    s.(streams := s.streams[streamId := Started(Next(entry.stream), entry.writable)],
       promises := s.promises[streamId := StreamNext])
  }

  /** A stream's `next()` resolved with `reply`, the reply its pending state
      holds. An unregistered stream throws unless the reply is `done`; `done`
      removes the stream from both maps; a buffer is posted to the main thread
      for the messages source and to the decode worker otherwise, and the
      stream's next `next()` is started; a rejection ends the session. */
  function OnReply(s: Session, streamId: nat, reply: Reply): (r: Result<(Session, Option<Post>), Failure>)
    requires Consistent(s)
    requires streamId in s.streams ==> s.streams[streamId].pending == Settled(reply)
    ensures r.Ok? ==> Consistent(r.value.0) && r.value.0.nextStreamId == s.nextStreamId
    ensures reply == Closed ==>
      r.Ok? && streamId !in r.value.0.streams && streamId !in r.value.0.promises
      && r.value.0.streams == s.streams - {streamId}
    ensures reply.Failed? ==> r == Err(StreamFailed(reply.error))
    ensures reply.NotYet? || reply.Delivered? ==> (r == Err(UnknownStream) <==> streamId !in s.streams)
    ensures (reply.NotYet? || reply.Delivered?) && streamId in s.streams ==>
      && Coherent(s.streams[streamId].stream)
      && r.Ok? && r.value.0 == Rearm(s, streamId) && (r.value.1.Some? <==> reply.Delivered?)
    ensures r.Ok? && r.value.1.Some? ==>
      streamId in s.streams && reply.Delivered? && r.value.1.value.Forward? && r.value.1.value.buffer == reply.buffer
      && (r.value.1.value.target == TRANSPORT_TO_MAIN_BUFFER <==> s.streams[streamId].stream.sourceId == MESSAGES_SOURCE_ID)
  {
    match reply
    case Failed(e) => Err(StreamFailed(e))
    case Closed => Ok((s.(streams := s.streams - {streamId}, promises := s.promises - {streamId}), None))
    case NotYet =>
      if streamId !in s.streams then Err(UnknownStream)
      else Ok((Rearm(s, streamId), None))
    case Delivered(buffer) =>
      if streamId !in s.streams then Err(UnknownStream)
      else
        var sourceId := s.streams[streamId].stream.sourceId;
        var target := if sourceId == MESSAGES_SOURCE_ID then TRANSPORT_TO_MAIN_BUFFER else TRANSPORT_TO_DECODE_BUFFER;
        Ok((Rearm(s, streamId), Some(Forward(target, streamId, sourceId, buffer))))
  }

  /** The network answered a stream's pending BYOB read with `result`. The
      end of the stream settles `next()` with `done`; a chunk settles it, or
      suspends it for a buffer to carry the next frame's first bytes into; it
      never reads twice within one `next()`. */
  function OnRead(s: Session, streamId: nat, result: ReadResult): (r: Session)
    requires Consistent(s) && streamId in s.streams && s.streams[streamId].pending.ForRead?
    requires result.Chunk? ==> |result.data| <= s.streams[streamId].pending.request
    ensures Consistent(r)
    ensures r == s.(streams := r.streams)
    ensures r.streams.Keys == s.streams.Keys
    ensures forall id :: id in s.streams && id != streamId ==> r.streams[id] == s.streams[id]
    ensures var before := s.streams[streamId]; var after := r.streams[streamId];
      && after.writable == before.writable
      && Standing(after) == ResumeRead(before.stream, result)
      && (result.EndOfStream? <==> after == before.(pending := Settled(Closed)))
      && !after.pending.ForRead?
  {
    var entry := s.streams[streamId];
    s.(streams := s.streams[streamId := Started(ResumeRead(entry.stream, result), entry.writable)])
  }

  /** The catch block: both maps cleared, no message stream, "disconnected"
      posted (a reconnection is then scheduled after 1000 ms). `nextStreamId`
      is kept, so ids are never reused across reconnections. */
  function Reset(s: Session): (r: (Session, Post))
    ensures r.0.streams == map[] && r.0.promises == map[] && r.0.messageStreamId == None
    ensures r.0.nextStreamId == s.nextStreamId
    ensures r.1 == Status(false)
  {
    (s.(streams := map[], promises := map[], messageStreamId := None), Status(false))
  }

  /** `MAIN_TO_TRANSPORT_BUFFER` / `DECODE_TO_TRANSPORT_BUFFER`: the buffer
      goes to the stream's suspended `nextBuffer`, which resumes with it and
      runs on to its next suspension (second component: the buffer it was
      handed), or to the back of the pool when no `nextBuffer` waits; a buffer
      for an unknown stream is dropped. */
  function ReturnBuffer(s: Session, streamId: nat, buffer: seq<byte>): (r: (Session, Option<seq<byte>>))
    requires Consistent(s)
    ensures Consistent(r.0)
    ensures streamId !in s.streams ==> r == (s, None)
    ensures r.0 == s.(streams := r.0.streams)
    ensures r.0.streams.Keys == s.streams.Keys
    ensures forall id :: id in s.streams && id != streamId ==> r.0.streams[id] == s.streams[id]
    ensures streamId in s.streams ==>
      var before := s.streams[streamId];
      var after := r.0.streams[streamId];
      && after.writable == before.writable
      && !after.stream.pool.waiting
      && (r.1.Some? <==> before.stream.pool.waiting)
      && (r.1.Some? ==>
            && r.1.value == buffer && after.stream.pool.free == before.stream.pool.free
            && before.pending.ForBuffer?
            && Standing(after) == ResumeBuffer(before.stream.(pool := Pool([], false)), before.pending.resume, buffer))
      && (r.1.None? ==>
            after == before.(stream := before.stream.(pool := Pool(before.stream.pool.free + [buffer], false))))
  {
    if streamId !in s.streams then (s, None)
    else
      var entry := s.streams[streamId];
      var (pool, resumed) := Give(entry.stream.pool, buffer);
      if resumed.None? then
        (s.(streams := s.streams[streamId := entry.(stream := entry.stream.(pool := pool))]), None)
      else
        var o := ResumeBuffer(entry.stream.(pool := pool), entry.pending.resume, buffer);
        (s.(streams := s.streams[streamId := Started(o, entry.writable)]), resumed)
  }

  /** A stream whose pool ran dry after delivering a frame reads again as
      soon as a consumer hands a buffer back: into the whole of that buffer,
      which the pool does not keep. */
  lemma ReturnedBufferResumesRead(s: Session, streamId: nat, buffer: seq<byte>)
    requires Consistent(s) && streamId in s.streams
    requires s.streams[streamId].pending == ForBuffer(ForNext) && |buffer| > 0
    ensures var after := ReturnBuffer(s, streamId, buffer).0.streams[streamId];
      && after.pending == ForRead(|buffer|)
      && after.stream.buffer == Some(buffer) && after.stream.offset == 0
      && after.stream.pool == Pool([], false)
  {
  }

  /** What an outbound control message does. */
  datatype Write = Written(bytes: seq<byte>) | Dropped | Thrown(error: Error)

  /** `MAIN_TO_TRANSPORT_MESSAGE`: with a registered message stream, write the
      first `size` bytes of `buffer`, `size` being its own little-endian
      prefix. Reading the prefix throws a RangeError on a buffer shorter than
      four bytes; then the callee `writer.write` is looked up, which throws a
      TypeError on a stream without a writer, before its argument, a view of
      `size` bytes, can throw a RangeError for a prefix past the end. */
  function SendMessage(s: Session, buffer: seq<byte>): (w: Write)
    ensures w.Written? ==> 4 <= |buffer| && |w.bytes| == ReadU32(buffer, 0) && w.bytes <= buffer
    ensures w.Written? <==>
      (s.messageStreamId.Some? && s.messageStreamId.value in s.streams
       && s.streams[s.messageStreamId.value].writable && 4 <= |buffer| && ReadU32(buffer, 0) <= |buffer|)
    ensures w == Dropped <==> s.messageStreamId.None? || s.messageStreamId.value !in s.streams
    ensures w == Thrown(TypeError) <==>
      (s.messageStreamId.Some? && s.messageStreamId.value in s.streams
       && !s.streams[s.messageStreamId.value].writable && 4 <= |buffer|)
    ensures w == Thrown(RangeError) <==>
      (s.messageStreamId.Some? && s.messageStreamId.value in s.streams
       && (|buffer| < 4 || (s.streams[s.messageStreamId.value].writable && ReadU32(buffer, 0) > |buffer|)))
  {
    if s.messageStreamId.None? || s.messageStreamId.value !in s.streams then Dropped
    else if |buffer| < 4 then Thrown(RangeError)
    else if !s.streams[s.messageStreamId.value].writable then Thrown(TypeError)
    else
      var size := ReadU32(buffer, 0);
      if size > |buffer| then Thrown(RangeError)
      else Written(buffer[..size])
  }

  /** An outbound frame built by `Prefixed` is written whole. */
  lemma SendPrefixedWritesAll(s: Session, payload: seq<byte>)
    requires |payload| + 4 < TWO_32
    requires s.messageStreamId.Some? && s.messageStreamId.value in s.streams
    requires s.streams[s.messageStreamId.value].writable
    ensures SendMessage(s, Prefixed(payload)) == Written(Prefixed(payload))
  {
    PrefixedIsFrame(payload);
  }

  /** As written, the unidirectional generator only yields a usable stream
      when the source id equals that generator's local id: any other source id
      arriving on a receive-only stream throws and ends the session. */
  lemma UnidirectionalAcceptNeedsMatchingId(s: Session, description: seq<byte>)
    requires |description| == 12 && Consistent(s) && s.unidirectionalGenerator in s.promises
    requires ReadU32(description, 0) != s.unidirectionalGenerator
    requires forall id :: id in s.streams ==> s.streams[id].stream.sourceId != ReadU32(description, 0)
    ensures Accept(s, s.unidirectionalGenerator, false, description) == Err(NoWriter)
  {
  }

  /** As written, on the first connection the unidirectional generator has
      local id 0, so source id 0 (stream 0 of device 0) is given a
      receive-only stream even when it arrives on a bidirectional stream, and
      the bidirectional generator is then re-armed on the unidirectional
      reader. */
  lemma FirstSourceZeroIsUnidirectional(description: seq<byte>)
    requires |description| == 12 && ReadU32(description, 0) == 0
    ensures var s := Connect(Start()).0;
      var r := Accept(s, 1, false, description);
      && r.Ok? && !r.value.streams[2].writable
      && r.value.promises[1] == ReadsUnidirectional
  {
  }

  /** One event of the accept loop, of a stream's reads or of the message
      listener; a thrown error resets the session. `Accepted` carries the
      stream a generator delivered: its bytes and how the network splits them.
      `Replied` is `Promise.race` settling on a stream's own `next()`, whose
      reply is the one the stream's pending state holds; `ReadDone` is the
      network answering a stream's pending read. An event whose promise is not
      pending (a generator not armed, a stream whose `next()` has not settled
      or is not reading) cannot happen, so it changes nothing. */
  datatype Event =
    | Connected
    | Accepted(generator: nat, done: bool, input: seq<byte>, cuts: seq<nat>)
    | Replied(streamId: nat)
    | ReadDone(streamId: nat, result: ReadResult)
    | Returned(streamId: nat, buffer: seq<byte>)
    | Failed

  /** A read result the pending read can take: the end of the stream, or at
      most the bytes it asked for. */
  predicate Fits(e: Registered, result: ReadResult)
  {
    e.pending.ForRead? && (result.Chunk? ==> |result.data| <= e.pending.request)
  }

  function Apply(s: Session, e: Event): (r: (Session, Option<nat>))
    requires Consistent(s)
    ensures Consistent(r.0)
    ensures r.0.nextStreamId >= s.nextStreamId
    ensures r.1.Some? ==> r.1.value == s.nextStreamId && r.0.nextStreamId == s.nextStreamId + 1
    ensures e.Accepted? && e.generator in s.promises ==>
      var a := AcceptStream(s, e.generator, e.done, e.input, e.cuts);
      (r.1.Some? <==> a.Ok?) && (a.Ok? ==> r.0 == a.value) && (a.Err? ==> r.0 == Reset(s).0)
    ensures e.Replied? && e.streamId in s.streams && s.streams[e.streamId].pending.Settled? ==>
      var o := OnReply(s, e.streamId, s.streams[e.streamId].pending.reply);
      (o.Ok? ==> r.0 == o.value.0) && (o.Err? ==> r.0 == Reset(s).0)
    ensures e.ReadDone? ==>
      r.0 == if e.streamId in s.streams && Fits(s.streams[e.streamId], e.result) then OnRead(s, e.streamId, e.result) else s
    ensures e.Returned? ==> r.0 == ReturnBuffer(s, e.streamId, e.buffer).0
    ensures e.Failed? ==> r.0 == Reset(s).0
  {
    match e
    case Connected => (Connect(s).0, None)
    case Accepted(generator, done, input, cuts) =>
      if generator !in s.promises then (s, None)
      else
        var a := AcceptStream(s, generator, done, input, cuts);
        if a.Ok? then (a.value, Some(s.nextStreamId)) else (Reset(s).0, None)
    case Replied(streamId) =>
      if streamId !in s.streams || !s.streams[streamId].pending.Settled? then (s, None)
      else
        var o := OnReply(s, streamId, s.streams[streamId].pending.reply);
        if o.Ok? then (o.value.0, None) else (Reset(s).0, None)
    case ReadDone(streamId, result) =>
      if streamId in s.streams && Fits(s.streams[streamId], result) then (OnRead(s, streamId, result), None)
      else (s, None)
    case Returned(streamId, buffer) => (ReturnBuffer(s, streamId, buffer).0, None)
    case Failed => (Reset(s).0, None)
  }

  /** A finished generator, or a new stream that closes before its twelve
      bytes, ends the session: the maps are cleared and no stream is
      accepted. */
  lemma FailedAcceptResets(s: Session, generator: nat, done: bool, input: seq<byte>, cuts: seq<nat>)
    requires Consistent(s) && generator in s.promises
    requires done || |input| < 12
    ensures Apply(s, Accepted(generator, done, input, cuts)) == (Reset(s).0, None)
    ensures Reset(s).0.streams == map[] && Reset(s).0.promises == map[]
  {
  }

  /** The local ids given to accepted streams over a run of events, across
      any number of errors and reconnections: strictly increasing, hence never
      reused, each at least the `nextStreamId` the run started from and below
      the one it ends with. */
  function Run(s: Session, events: seq<Event>): (r: (Session, seq<nat>))
    requires Consistent(s)
    ensures Consistent(r.0) && r.0.nextStreamId >= s.nextStreamId
    ensures forall i, j :: 0 <= i < j < |r.1| ==> r.1[i] < r.1[j]
    ensures forall i :: 0 <= i < |r.1| ==> s.nextStreamId <= r.1[i] < r.0.nextStreamId
    decreases |events|
  {
    if |events| == 0 then (s, [])
    else
      var a := Apply(s, events[0]);
      var rest := Run(a.0, events[1..]);
      if a.1.Some? then (rest.0, [a.1.value] + rest.1) else rest
  }
}
