/** The earlier iteration of the transport worker
    (ui/src/transportWorker.bak.ts). Its reassembler, accept loop and buffer
    return are those of the current worker; it adds a keepalive: a ping
    written to the message stream on a timer, and the server's "pong" replies
    recognised and recycled instead of being posted to the main thread. */
module EarlierTransport {
  import opened Bytes
  import opened Wrappers
  import opened Framing
  import opened Constants
  import opened BufferPool
  import opened Reassembler
  import opened TransportSession

  /** The UTF-8 bytes of `JSON.stringify({ type: "Ping" })`, i.e. `{"type":"Ping"}`. */
  const PING_JSON: seq<byte> := [123, 34, 116, 121, 112, 101, 34, 58, 34, 80, 105, 110, 103, 34, 125]

  /** `pingMessage`: the JSON text behind its total length. */
  function PingMessage(): (r: seq<byte>)
    ensures |r| == 19 && r[4..] == PING_JSON
    ensures IsFrame(r)
  {
    PrefixedIsFrame(PING_JSON);
    Prefixed(PING_JSON)
  }

  /** "pong" read as a little-endian `u32`. */
  const PONG_WORD: nat := 0x676e6f70

  /** The keepalive check on a delivered message-stream buffer: the first word
      is 8 and the second spells "pong". `&&` short-circuits, so the second
      view is only built when the first word is 8; each view throws a
      `RangeError` when the buffer is too short for it. */
  function IsPong(b: seq<byte>): (r: Result<bool, Error>)
    ensures r.Err? <==> |b| < 4 || (ReadU32(b, 0) == 8 && |b| < 8)
    ensures r.Err? ==> r.error == RangeError
    ensures r == Ok(true) <==> 8 <= |b| && ReadU32(b, 0) == 8 && ReadU32(b, 4) == PONG_WORD
  {
    if |b| < 4 then Err(RangeError)
    else if ReadU32(b, 0) != 8 then Ok(false)
    else if |b| < 8 then Err(RangeError)
    else Ok(ReadU32(b, 4) == PONG_WORD)
  }

  /** The `pong_bytes` the server writes on the message stream
      (src/client.rs) pass the check. */
  lemma ServerPongIsPong()
    ensures IsPong([8, 0, 0, 0, 112, 111, 110, 103]) == Ok(true)
  {
  }

  /** The worker's own ping is not mistaken for a pong. */
  lemma PingIsNotPong()
    ensures IsPong(PingMessage()) == Ok(false)
  {
    var p := PingMessage();
    assert p[..4] == LeU32(19);
    ReadU32Local(p, LeU32(19), 0);
    ReadLeU32(19);
  }

  /** A stream's `next()` resolved with `reply`, with the keepalive branch: a
      pong on the messages source is handed back to the stream's pool (or to
      its waiting `nextBuffer`: third component) and posted nowhere, and the
      stream's next `next()` is started; every other reply is handled as in
      the current worker. A stream whose `next()` has settled has no waiting
      `nextBuffer`, so the pong always joins the back of the pool. */
  function OnReplyEarlier(s: Session, streamId: nat, reply: Reply): (r: Result<(Session, Option<Post>, Option<seq<byte>>), Failure>)
    requires Consistent(s)
    requires streamId in s.streams ==> s.streams[streamId].pending == Settled(reply)
    ensures r.Ok? ==> Consistent(r.value.0) && r.value.0.nextStreamId == s.nextStreamId
    ensures r.Ok? && r.value.1.Some? ==> r.value.2.None?
    ensures !reply.Delivered? || streamId !in s.streams
            || s.streams[streamId].stream.sourceId != MESSAGES_SOURCE_ID ==>
      (r.Ok? <==> OnReply(s, streamId, reply).Ok?)
      && (r.Ok? ==> r.value.0 == OnReply(s, streamId, reply).value.0 && r.value.1 == OnReply(s, streamId, reply).value.1)
    ensures reply.Delivered? && streamId in s.streams && s.streams[streamId].stream.sourceId == MESSAGES_SOURCE_ID ==>
      var pong := IsPong(reply.buffer);
      && (r.Err? <==> pong.Err?)
      && (pong == Ok(false) ==> r == Ok((Rearm(s, streamId),
                                        Some(Forward(TRANSPORT_TO_MAIN_BUFFER, streamId, MESSAGES_SOURCE_ID, reply.buffer)), None)))
      && (pong == Ok(true) ==>
            var returned := ReturnBuffer(s, streamId, reply.buffer);
            && returned.1.None? && Coherent(returned.0.streams[streamId].stream)
            && returned.0.streams[streamId].stream.pool.free == s.streams[streamId].stream.pool.free + [reply.buffer]
            && r == Ok((Rearm(returned.0, streamId), None, None)))
  {
    match reply
    case Delivered(buffer) =>
      if streamId !in s.streams then Err(UnknownStream)
      else
        var sourceId := s.streams[streamId].stream.sourceId;
        if sourceId != MESSAGES_SOURCE_ID then
          Ok((Rearm(s, streamId), Some(Forward(TRANSPORT_TO_DECODE_BUFFER, streamId, sourceId, buffer)), None))
        else
          (match IsPong(buffer)
           case Err(e) => Err(StreamFailed(e))
           case Ok(false) =>
             Ok((Rearm(s, streamId), Some(Forward(TRANSPORT_TO_MAIN_BUFFER, streamId, sourceId, buffer)), None))
           case Ok(true) =>
             var (returned, resumed) := ReturnBuffer(s, streamId, buffer);
             Ok((Rearm(returned, streamId), None, resumed)))
    case _ =>
      match OnReply(s, streamId, reply)
      case Err(f) => Err(f)
      case Ok((next, post)) => Ok((next, post, None))
  }

  /** The pong the server sends is never posted to the main thread. */
  lemma PongNeverPosted(s: Session, streamId: nat)
    requires Consistent(s) && streamId in s.streams
    requires s.streams[streamId].pending == Settled(Delivered([8, 0, 0, 0, 112, 111, 110, 103]))
    requires s.streams[streamId].stream.sourceId == MESSAGES_SOURCE_ID
    ensures var r := OnReplyEarlier(s, streamId, Delivered([8, 0, 0, 0, 112, 111, 110, 103]));
      r.Ok? && r.value.1.None?
  {
    ServerPongIsPong();
  }

  /** The worker of the earlier iteration: the session plus whether the ping
      interval is armed. */
  datatype Worker = Worker(session: Session, pinging: bool)

  /** Connecting arms the ping interval. */
  function ConnectEarlier(w: Worker): (r: (Worker, Post))
    ensures r.0.pinging && r.1 == Status(true)
    ensures r.0.session == Connect(w.session).0
  {
    (Worker(Connect(w.session).0, true), Connect(w.session).1)
  }

  /** The catch block also clears the ping interval. */
  function ResetEarlier(w: Worker): (r: (Worker, Post))
    ensures !r.0.pinging && r.1 == Status(false)
    ensures r.0.session == Reset(w.session).0
  {
    (Worker(Reset(w.session).0, false), Status(false))
  }

  /** One firing of the ping interval: the ping is written only when the
      interval is armed and the message stream is known and registered; a
      registered stream without a writer throws inside the timer callback. */
  function Tick(w: Worker): (t: Write)
    ensures t.Written? <==> w.pinging && w.session.messageStreamId.Some?
                            && w.session.messageStreamId.value in w.session.streams
                            && w.session.streams[w.session.messageStreamId.value].writable
    ensures t.Written? ==> t.bytes == PingMessage()
    ensures t.Thrown? ==> t.error == TypeError
  {
    var s := w.session;
    if !w.pinging || s.messageStreamId.None? || s.messageStreamId.value !in s.streams then Dropped
    else if !s.streams[s.messageStreamId.value].writable then Thrown(TypeError)
    else Written(PingMessage())
  }

  /** After an error no ping is written until the next connection. */
  lemma NoPingAfterReset(w: Worker)
    ensures Tick(ResetEarlier(w).0) == Dropped
  {
  }

  /** `MAIN_TO_TRANSPORT_MESSAGE` in the earlier iteration: the whole buffer
      is written, whatever its prefix says. */
  function SendMessageEarlier(s: Session, buffer: seq<byte>): (w: Write)
    ensures w.Written? ==> w.bytes == buffer
    ensures w.Written? <==>
      (s.messageStreamId.Some? && s.messageStreamId.value in s.streams
       && s.streams[s.messageStreamId.value].writable)
  {
    if s.messageStreamId.None? || s.messageStreamId.value !in s.streams then Dropped
    else if !s.streams[s.messageStreamId.value].writable then Thrown(TypeError)
    else Written(buffer)
  }

  /** The two iterations agree on a buffer that is exactly one frame; on a
      longer buffer the current worker writes only the prefixed frame while
      the earlier one writes everything. */
  lemma SendIterationsAgreeOnFrames(s: Session, buffer: seq<byte>)
    requires s.messageStreamId.Some? && s.messageStreamId.value in s.streams
    requires s.streams[s.messageStreamId.value].writable
    ensures IsFrame(buffer) ==> SendMessage(s, buffer) == SendMessageEarlier(s, buffer)
    ensures 4 <= |buffer| && ReadU32(buffer, 0) < |buffer| ==>
      SendMessage(s, buffer).Written? && SendMessage(s, buffer) != SendMessageEarlier(s, buffer)
  {
  }
}
