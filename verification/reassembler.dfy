/** The frame reassembler of the browser transport worker
    (`UnidirectionalStream.next`, `nextWithBuffer` and `nextBuffer`).

    Every `await` of the original becomes a suspension: an operation returns
    either an answer for the accept loop, or a request to wait for a buffer
    from the pool, or a request to read at most `request` bytes from the
    stream. The environment resumes the stream with `ResumeBuffer` or
    `ResumeRead`. A buffer is a byte sequence whose length is its
    `byteLength`. */
module Reassembler {
  import opened Bytes
  import opened Wrappers
  import opened BufferPool

  datatype Stream = Stream(
    streamId: nat,
    sourceId: nat,
    pool: Pool,
    buffer: Option<seq<byte>>,
    size: nat,
    offset: nat)

  /** A JavaScript exception that rejects the stream's promise. */
  datatype Error =
    | RangeError  // a typed-array view that does not fit in its buffer
    | TypeError   // a zero-length BYOB read

  /** What the accept loop receives: `[false, null]`, `[false, buffer]`,
      `[true, null]`, or a rejection. */
  datatype Reply = NotYet | Delivered(buffer: seq<byte>) | Closed | Failed(error: Error)

  /** Where a suspended `nextBuffer` resumes. */
  datatype Resume = ForNext | ForCarry

  datatype Outcome =
    | Answer(stream: Stream, reply: Reply)
    | AwaitBuffer(stream: Stream, resume: Resume)
    | AwaitRead(stream: Stream, request: nat)

  /** What a BYOB read resolves with. */
  datatype ReadResult = EndOfStream | Chunk(data: seq<byte>)

  /** A stream between two calls: no buffer means nothing is pending; a known
      frame size means the frame is not complete yet; the pool has no waiter. */
  predicate Coherent(s: Stream)
  {
    && Valid(s.pool) && !s.pool.waiting
    && (s.buffer.None? ==> s.offset == 0 && s.size == 0)
    && (s.buffer.Some? ==> s.offset <= |s.buffer.value|)
    && (s.size != 0 ==> s.offset < s.size)
  }

  /** The end of the region a read may fill: the frame when its size is known,
      the whole buffer otherwise. */
  function Limit(s: Stream): nat
    requires s.buffer.Some?
  {
    if s.size == 0 then |s.buffer.value| else s.size
  }

  /** A stream suspended in a read whose view fits in its buffer. */
  predicate Readable(s: Stream)
  {
    Coherent(s) && s.buffer.Some? && Limit(s) <= |s.buffer.value| && s.offset < Limit(s)
  }

  /** A stream suspended in `nextBuffer` before moving the bytes past the
      current frame to a fresh buffer. */
  /** The identity of a stream is kept by every step. */
  predicate SameStream(a: Stream, b: Stream)
  {
    a.streamId == b.streamId && a.sourceId == b.sourceId
  }

  predicate CarryReady(s: Stream)
  {
    && Valid(s.pool)
    && s.buffer.Some? && s.size < s.offset <= |s.buffer.value|
  }

  /** Every suspension and answer leaves the stream in the state its
      resumption expects, with a waiter armed only by a suspended
      `nextBuffer`. */
  predicate Sound(o: Outcome)
  {
    match o
    case Answer(s, reply) => Valid(s.pool) && !s.pool.waiting && (reply.Failed? || Coherent(s))
    case AwaitBuffer(s, ForNext) => s.pool == Pool([], true) && s.buffer.None? && s.size == 0 && s.offset == 0
    case AwaitBuffer(s, ForCarry) => CarryReady(s) && s.pool == Pool([], true)
    case AwaitRead(s, request) => Readable(s) && request == Limit(s) - s.offset && request > 0
  }

  /** The constructor: `bufferCount` buffers of `bufferSize` bytes, no current
      buffer. */
  function Create(streamId: nat, sourceId: nat, bufferCount: nat, bufferSize: nat): (s: Stream)
    ensures Coherent(s) && s.buffer.None?
    ensures |s.pool.free| == bufferCount
    ensures forall i :: 0 <= i < bufferCount ==> |s.pool.free[i]| == bufferSize
  {
    Stream(streamId, sourceId, Fill(bufferCount, bufferSize), None, 0, 0)
  }

  /** `next`: take a buffer from the pool when there is none, then
      `nextWithBuffer`. */
  function Next(s: Stream): (o: Outcome)
    requires Coherent(s)
    ensures Sound(o) && SameStream(s, o.stream)
    ensures s.buffer.None? && o.AwaitBuffer? ==> s.pool.free == []
  {
    if s.buffer.None? then
      var (p, b) := Take(s.pool);
      if b.None? then AwaitBuffer(s.(pool := p), ForNext)
      else NextWithBuffer(s.(pool := p, buffer := b))
    else NextWithBuffer(s)
  }

  /** A `next()` with no current buffer takes the front buffer of the pool
      and reads into the whole of it (a zero-length buffer is a rejected
      read), or, on an empty pool, arms the waiter and suspends. */
  lemma FirstNext(s: Stream)
    requires Coherent(s)
    ensures s.buffer.None? && s.pool.free == [] ==> Next(s) == AwaitBuffer(s.(pool := Pool([], true)), ForNext)
    ensures s.buffer.None? && s.pool.free != [] ==>
      var taken := s.(pool := Pool(s.pool.free[1..], false), buffer := Some(s.pool.free[0]));
      Next(s) == if |s.pool.free[0]| == 0 then Answer(taken, Failed(TypeError)) else AwaitRead(taken, |s.pool.free[0]|)
  {
  }

  /** The pool resolved a suspended `nextBuffer` with `b`. */
  function ResumeBuffer(s: Stream, resume: Resume, b: seq<byte>): (o: Outcome)
    requires s.pool.free == [] && !s.pool.waiting
    requires resume == ForNext ==> s.buffer.None? && s.size == 0 && s.offset == 0
    requires resume == ForCarry ==> CarryReady(s)
    ensures Sound(o) && SameStream(s, o.stream)
    ensures o.stream.pool == s.pool
  {
    if resume == ForNext then NextWithBuffer(s.(buffer := Some(b)))
    else Carry(s, b)
  }

  /** `nextWithBuffer`: when the size is unknown and the prefix is in, read it;
      a complete frame is delivered without reading, bytes past it are carried
      over; otherwise read. */
  function NextWithBuffer(s: Stream): (o: Outcome)
    requires Coherent(s) && s.buffer.Some?
    ensures Sound(o) && SameStream(s, o.stream)
  {
    var buffer := s.buffer.value;
    if s.size == 0 && s.offset >= 4 then
      var size := ReadU32(buffer, 0);
      if s.offset == size then Answer(s.(buffer := None, size := 0, offset := 0), Delivered(buffer))
      else if s.offset > size then TakeForCarry(s.(size := size))
      else Read(s.(size := size))
    else Read(s)
  }

  /** The BYOB read of `[offset, Limit)`: the view constructor throws when the
      region leaves the buffer, and a zero-length read is rejected. */
  function Read(s: Stream): (o: Outcome)
    requires Coherent(s) && s.buffer.Some?
    ensures Sound(o) && o.stream == s
    ensures o.AwaitRead? || (o.Answer? && o.reply.Failed?)
  {
    var limit := Limit(s);
    if limit > |s.buffer.value| then Answer(s, Failed(RangeError))
    else if limit == s.offset then Answer(s, Failed(TypeError))
    else AwaitRead(s, limit - s.offset)
  }

  /** The read resolved: end of stream, or `data` written at `offset`. */
  function ResumeRead(s: Stream, r: ReadResult): (o: Outcome)
    requires Readable(s)
    requires r.Chunk? ==> |r.data| <= Limit(s) - s.offset
    ensures Sound(o) && SameStream(s, o.stream) && !o.AwaitRead?
    ensures r.EndOfStream? <==> o == Answer(s, Closed)
  {
    match r
    case EndOfStream => Answer(s, Closed)
    case Chunk(data) =>
      var buffer := s.buffer.value;
      var written := buffer[..s.offset] + data + buffer[s.offset + |data|..];
      var offset := s.offset + |data|;
      var s1 := s.(buffer := Some(written), offset := offset);
      if s.size == 0 && offset < 4 then Answer(s1, NotYet)
      else
        var size := if s.size == 0 then ReadU32(written, 0) else s.size;
        var s2 := s1.(size := size);
        if offset < size then Answer(s2, NotYet)
        else if offset == size then Answer(s2.(buffer := None, size := 0, offset := 0), Delivered(written))
        else TakeForCarry(s2)
  }

  /** The frame in the current buffer is complete and followed by more bytes:
      get a fresh buffer, suspending when the pool is empty. */
  function TakeForCarry(s: Stream): (o: Outcome)
    requires CarryReady(s) && !s.pool.waiting
    ensures Sound(o) && SameStream(s, o.stream) && !o.AwaitRead?
    ensures o.AwaitBuffer? ==> s.pool.free == []
  {
    var (p, b) := Take(s.pool);
    if b.None? then AwaitBuffer(s.(pool := p), ForCarry)
    else Carry(s.(pool := p), b.value)
  }

  /** Copy `[size, offset)` to the front of `next`, keep `next` as the
      current buffer and deliver the old one. */
  function Carry(s: Stream, next: seq<byte>): (o: Outcome)
    requires CarryReady(s) && !s.pool.waiting
    ensures Sound(o) && SameStream(s, o.stream) && o.stream.pool == s.pool
    ensures o.Answer? && (o.reply.Delivered? <==> s.offset - s.size <= |next|)
    ensures o.reply.Delivered? ==> o.reply.buffer == s.buffer.value
    ensures o.reply.Delivered? ==>
      o.stream.buffer == Some(s.buffer.value[s.size..s.offset] + next[s.offset - s.size..])
  {
    var buffer := s.buffer.value;
    var carried := s.offset - s.size;
    if carried > |next| then Answer(s, Failed(RangeError))
    else Answer(s.(buffer := Some(buffer[s.size..s.offset] + next[carried..]), size := 0, offset := carried),
                Delivered(buffer))
  }

  /** The frame a delivered buffer holds: the bytes its prefix announces. */
  function FrameOf(buffer: seq<byte>): (f: seq<byte>)
    ensures |f| <= |buffer|
    ensures 4 <= |buffer| && ReadU32(buffer, 0) <= |buffer| ==> |f| == ReadU32(buffer, 0)
  {
    if |buffer| < 4 then buffer
    else buffer[..if ReadU32(buffer, 0) <= |buffer| then ReadU32(buffer, 0) else |buffer|]
  }
}
