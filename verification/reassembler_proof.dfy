/** The reassembler delivers exactly the frames the peer sent, in order,
    however the network splits the byte stream into reads. */
module ReassemblerProof {
  import opened Bytes
  import opened Wrappers
  import opened Framing
  import opened BufferPool
  import opened Reassembler

  /** How a drive of the stream ends. */
  datatype End = EndClosed | EndFailed(error: Error) | EndStalled | EndOutOfFuel

  /** The accept loop driving one stream whose peer still sends `rest`: every
      read returns the next `ChunkSize` bytes, the end of the stream once
      `rest` is exhausted, and each delivered buffer is handed back to the pool
      at once. The result lists the frames of the delivered buffers. */
  function Drive(s: Stream, rest: seq<byte>, cuts: seq<nat>, fuel: nat): (r: (seq<seq<byte>>, End))
    requires Coherent(s)
    decreases fuel, 0
  {
    if fuel == 0 then ([], EndOutOfFuel) else Step(Next(s), rest, cuts, fuel - 1)
  }

  /** What the accept loop does with the outcome of `next`. */
  function Step(o: Outcome, rest: seq<byte>, cuts: seq<nat>, fuel: nat): (r: (seq<seq<byte>>, End))
    requires Sound(o)
    decreases fuel, 3
  {
    if o.AwaitRead? then ReadStep(o.stream, o.request, rest, cuts, fuel)
    else Continue(o, rest, cuts, fuel)
  }

  function ReadStep(s: Stream, request: nat, rest: seq<byte>, cuts: seq<nat>, fuel: nat): (r: (seq<seq<byte>>, End))
    requires Readable(s) && request == Limit(s) - s.offset && request > 0
    decreases fuel, 2
  {
    if |rest| == 0 then Continue(ResumeRead(s, EndOfStream), rest, cuts, fuel)
    else
      var k := ChunkSize(request, |rest|, cuts);
      Continue(ResumeRead(s, Chunk(rest[..k])), rest[k..], Later(cuts), fuel)
  }

  function Continue(o: Outcome, rest: seq<byte>, cuts: seq<nat>, fuel: nat): (r: (seq<seq<byte>>, End))
    requires Sound(o)
    decreases fuel, 1
  {
    match o
    case Answer(s, NotYet) => Drive(s, rest, cuts, fuel)
    case Answer(s, Delivered(b)) =>
      var r := Drive(s.(pool := Give(s.pool, b).0), rest, cuts, fuel);
      ([FrameOf(b)] + r.0, r.1)
    case Answer(_, Closed) => ([], EndClosed)
    case Answer(_, Failed(e)) => ([], EndFailed(e))
    case AwaitBuffer(_, _) => ([], EndStalled)
    case AwaitRead(_, _) => ([], EndStalled)
  }

  /** The bytes received but not yet delivered. */
  function Pending(s: Stream): seq<byte>
    requires Coherent(s)
  {
    if s.buffer.None? then [] else s.buffer.value[..s.offset]
  }

  /** Every pool buffer holds `capacity` bytes. */
  predicate Uniform(free: seq<seq<byte>>, capacity: nat)
  {
    forall i :: 0 <= i < |free| ==> |free[i]| == capacity
  }

  /** The drive invariant: `count` buffers of `capacity` bytes in total, the
      pending bytes followed by the unsent bytes are the frames still to
      deliver, and a known size is the size of the first of them. */
  predicate Inv(s: Stream, rest: seq<byte>, frames: seq<seq<byte>>, capacity: nat, count: nat)
  {
    && Coherent(s) && 4 <= capacity && 2 <= count
    && Uniform(s.pool.free, capacity)
    && |s.pool.free| + (if s.buffer.Some? then 1 else 0) == count
    && (s.buffer.Some? ==> |s.buffer.value| == capacity)
    && AllFitIn(frames, capacity)
    && Pending(s) + rest == Concat(frames)
    && (s.size != 0 ==> |frames| > 0 && s.size == |frames[0]|)
  }

  function Measure(s: Stream, rest: seq<byte>): nat
  {
    2 * |rest| + s.offset + (if s.buffer.None? then 1 else 0)
  }

  /** With nothing left to send, a short pending region means every frame was
      delivered. */
  lemma NothingLeft(pending: seq<byte>, frames: seq<seq<byte>>, capacity: nat, size: nat)
    requires pending == Concat(frames)
    requires AllFitIn(frames, capacity)
    requires size == 0 ==> |pending| < 4
    requires size != 0 ==> |frames| > 0 && size == |frames[0]| && |pending| < size
    ensures frames == []
  {
    ConcatFirst(frames);
  }

  /** A delivered buffer handed back at once: the drive goes on with the
      remaining frames. */
  lemma {:induction false} AfterDelivery(s: Stream, b: seq<byte>, rest: seq<byte>, cuts: seq<nat>,
                                         frames: seq<seq<byte>>, capacity: nat, count: nat, fuel: nat)
    requires Coherent(s) && |frames| > 0 && FrameOf(b) == frames[0]
    requires Inv(s.(pool := Give(s.pool, b).0), rest, frames[1..], capacity, count)
    requires fuel > Measure(s.(pool := Give(s.pool, b).0), rest)
    ensures Continue(Answer(s, Delivered(b)), rest, cuts, fuel) == (frames, EndClosed)
    decreases fuel, 1
  {
    var s1 := s.(pool := Give(s.pool, b).0);
    Run(s1, rest, cuts, frames[1..], capacity, count, fuel);
    assert frames == [frames[0]] + frames[1..];
  }

  /** The frame in the current buffer is complete and followed by bytes of the
      next one: they move to a fresh pool buffer and the frame is delivered. */
  lemma {:induction false} AfterCarry(s: Stream, rest: seq<byte>, cuts: seq<nat>,
                                      frames: seq<seq<byte>>, capacity: nat, count: nat, fuel: nat)
    requires CarryReady(s) && !s.pool.waiting
    requires 4 <= capacity && 2 <= count && AllFitIn(frames, capacity)
    requires Uniform(s.pool.free, capacity) && |s.pool.free| + 1 == count
    requires |s.buffer.value| == capacity
    requires |frames| > 0 && s.size == |frames[0]|
    requires s.buffer.value[..s.offset] + rest == Concat(frames)
    requires fuel > 2 * |rest| + s.offset - s.size
    ensures Continue(TakeForCarry(s), rest, cuts, fuel) == (frames, EndClosed)
    decreases fuel, 2
  {
    var buffer := s.buffer.value;
    SplitPending(buffer, s.offset, rest, frames);
    assert FitsIn(frames[0], capacity);
    var next := s.pool.free[0];
    var carried := s.offset - s.size;
    var moved := buffer[s.size..s.offset] + next[carried..];
    var s1 := s.(pool := Pool(s.pool.free[1..], false), buffer := Some(moved), size := 0, offset := carried);
    assert TakeForCarry(s) == Answer(s1, Delivered(buffer));
    assert FrameOf(buffer) == frames[0];
    var s2 := s1.(pool := Give(s1.pool, buffer).0);
    assert moved[..carried] == buffer[s.size..s.offset];
    assert Uniform(s2.pool.free, capacity);
    assert Inv(s2, rest, frames[1..], capacity, count);
    AfterDelivery(s1, buffer, rest, cuts, frames, capacity, count, fuel);
  }

  /** The read phase: the pending region is extended by the next chunk and
      then delivered, carried over or kept for the next read. */
  lemma {:induction false} AfterRead(s: Stream, rest: seq<byte>, cuts: seq<nat>,
                                     frames: seq<seq<byte>>, capacity: nat, count: nat, fuel: nat)
    requires Inv(s, rest, frames, capacity, count) && Readable(s)
    requires s.size == 0 ==> s.offset < 4
    requires fuel >= 2 * |rest| + s.offset
    ensures ReadStep(s, Limit(s) - s.offset, rest, cuts, fuel) == (frames, EndClosed)
    decreases fuel, 5
  {
    var buffer := s.buffer.value;
    if |rest| == 0 {
      NothingLeft(Pending(s), frames, capacity, s.size);
      return;
    }
    var k := ChunkSize(Limit(s) - s.offset, |rest|, cuts);
    Arrived(s, rest, cuts, frames, capacity, count, fuel, k);
  }

  /** A read brought in the next `k` bytes. */
  lemma {:induction false} Arrived(s: Stream, rest: seq<byte>, cuts: seq<nat>,
                                   frames: seq<seq<byte>>, capacity: nat, count: nat, fuel: nat, k: nat)
    requires Inv(s, rest, frames, capacity, count) && Readable(s)
    requires s.size == 0 ==> s.offset < 4
    requires 1 <= k <= |rest| && k <= Limit(s) - s.offset
    requires fuel >= 2 * |rest| + s.offset
    ensures Continue(ResumeRead(s, Chunk(rest[..k])), rest[k..], Later(cuts), fuel) == (frames, EndClosed)
    decreases fuel, 4
  {
    var s1 := Written(s, rest, frames, capacity, count, k);
    if s.size == 0 && s1.offset < 4 {
      assert Inv(s1, rest[k..], frames, capacity, count);
      Run(s1, rest[k..], Later(cuts), frames, capacity, count, fuel);
    } else {
      ArrivedFrame(s, s1, rest, cuts, frames, capacity, count, fuel, k);
    }
  }

  /** The stream after the read wrote `k` bytes at its offset. */
  lemma Written(s: Stream, rest: seq<byte>, frames: seq<seq<byte>>, capacity: nat, count: nat, k: nat)
    returns (s1: Stream)
    requires Inv(s, rest, frames, capacity, count) && Readable(s)
    requires 1 <= k <= |rest| && k <= Limit(s) - s.offset
    ensures var buffer := s.buffer.value;
      s1 == s.(buffer := Some(buffer[..s.offset] + rest[..k] + buffer[s.offset + k..]), offset := s.offset + k)
    ensures |s1.buffer.value| == capacity && s1.offset <= capacity
    ensures s1.buffer.value[..s1.offset] + rest[k..] == Concat(frames)
  {
    var buffer := s.buffer.value;
    var data := rest[..k];
    var written := buffer[..s.offset] + data + buffer[s.offset + k..];
    var offset := s.offset + k;
    assert written[..offset] == buffer[..s.offset] + data;
    assert rest == data + rest[k..];
    s1 := s.(buffer := Some(written), offset := offset);
  }

  /** A read that completed the length prefix, or added to a frame whose
      length was known. */
  lemma {:induction false} ArrivedFrame(s: Stream, s1: Stream, rest: seq<byte>, cuts: seq<nat>,
                                        frames: seq<seq<byte>>, capacity: nat, count: nat, fuel: nat, k: nat)
    requires Inv(s, rest, frames, capacity, count) && Readable(s)
    requires s.size == 0 ==> s.offset < 4
    requires 1 <= k <= |rest| && k <= Limit(s) - s.offset
    requires fuel >= 2 * |rest| + s.offset
    requires var buffer := s.buffer.value;
      s1 == s.(buffer := Some(buffer[..s.offset] + rest[..k] + buffer[s.offset + k..]), offset := s.offset + k)
    requires |s1.buffer.value| == capacity && s1.offset <= capacity
    requires s1.buffer.value[..s1.offset] + rest[k..] == Concat(frames)
    requires !(s.size == 0 && s1.offset < 4)
    ensures Continue(ResumeRead(s, Chunk(rest[..k])), rest[k..], Later(cuts), fuel) == (frames, EndClosed)
    decreases fuel, 3
  {
    var written := s1.buffer.value;
    var offset := s1.offset;
    var size := if s.size == 0 then ReadU32(written, 0) else s.size;
    ResumedWithFrame(s, rest[..k], s1);
    if s.size == 0 {
      HeaderOfPending(written, offset, rest[k..], frames, capacity);
    }
    assert |frames| > 0 && size == |frames[0]|;
    assert FitsIn(frames[0], capacity);
    var s2 := s1.(size := size);
    if offset < size {
      assert Inv(s2, rest[k..], frames, capacity, count);
      Run(s2, rest[k..], Later(cuts), frames, capacity, count, fuel);
    } else if offset == size {
      SplitPending(written, offset, rest[k..], frames);
      var s3 := s2.(buffer := None, size := 0, offset := 0);
      assert FrameOf(written) == frames[0];
      assert Inv(s3.(pool := Give(s3.pool, written).0), rest[k..], frames[1..], capacity, count);
      AfterDelivery(s3, written, rest[k..], Later(cuts), frames, capacity, count, fuel);
    } else {
      AfterCarry(s2, rest[k..], Later(cuts), frames, capacity, count, fuel);
    }
  }

  /** What a read that leaves four bytes or a known length resumes with. */
  lemma ResumedWithFrame(s: Stream, data: seq<byte>, s1: Stream)
    requires Readable(s) && |data| <= Limit(s) - s.offset
    requires var buffer := s.buffer.value;
      s1 == s.(buffer := Some(buffer[..s.offset] + data + buffer[s.offset + |data|..]), offset := s.offset + |data|)
    requires !(s.size == 0 && s1.offset < 4)
    ensures var size := if s.size == 0 then ReadU32(s1.buffer.value, 0) else s.size;
      var s2 := s1.(size := size);
      ResumeRead(s, Chunk(data)) ==
        if s1.offset < size then Answer(s2, NotYet)
        else if s1.offset == size then Answer(s2.(buffer := None, size := 0, offset := 0), Delivered(s1.buffer.value))
        else TakeForCarry(s2)
  {
  }

  /** `next` on a stream without a buffer takes the oldest pool buffer. */
  lemma TakeFirst(s: Stream, rest: seq<byte>, frames: seq<seq<byte>>, capacity: nat, count: nat)
    returns (t: Stream)
    requires Inv(s, rest, frames, capacity, count)
    ensures Inv(t, rest, frames, capacity, count) && t.buffer.Some?
    ensures Next(s) == NextWithBuffer(t)
    ensures t.offset + 2 * |rest| <= Measure(s, rest)
  {
    if s.buffer.None? {
      t := s.(pool := Pool(s.pool.free[1..], false), buffer := Some(s.pool.free[0]));
      assert Pending(t) == [];
    } else {
      t := s;
    }
  }

  /** `nextWithBuffer` on a stream satisfying the drive invariant. */
  lemma {:induction false} Dispatch(t: Stream, rest: seq<byte>, cuts: seq<nat>,
                                    frames: seq<seq<byte>>, capacity: nat, count: nat, fuel: nat)
    requires Inv(t, rest, frames, capacity, count) && t.buffer.Some?
    requires fuel >= 2 * |rest| + t.offset
    ensures Step(NextWithBuffer(t), rest, cuts, fuel) == (frames, EndClosed)
    decreases fuel, 7
  {
    if t.size == 0 && t.offset >= 4 {
      PrefixIn(t, rest, cuts, frames, capacity, count, fuel);
    } else {
      AfterRead(t, rest, cuts, frames, capacity, count, fuel);
      ReadsOn(t);
    }
  }

  /** Without a complete length prefix, `nextWithBuffer` reads. */
  lemma ReadsOn(t: Stream)
    requires Readable(t) && !(t.size == 0 && t.offset >= 4)
    ensures NextWithBuffer(t) == AwaitRead(t, Limit(t) - t.offset)
  {
  }

  /** `nextWithBuffer` once the length prefix is in: the frame is delivered,
      carried over or read on. */
  lemma {:induction false} PrefixIn(t: Stream, rest: seq<byte>, cuts: seq<nat>,
                                    frames: seq<seq<byte>>, capacity: nat, count: nat, fuel: nat)
    requires Inv(t, rest, frames, capacity, count) && t.buffer.Some?
    requires t.size == 0 && t.offset >= 4
    requires fuel >= 2 * |rest| + t.offset
    ensures Step(NextWithBuffer(t), rest, cuts, fuel) == (frames, EndClosed)
    decreases fuel, 6
  {
    var buffer := t.buffer.value;
    HeaderOfPending(buffer, t.offset, rest, frames, capacity);
    var size := ReadU32(buffer, 0);
    assert FitsIn(frames[0], capacity);
    if t.offset == size {
      SplitPending(buffer, t.offset, rest, frames);
      var t1 := t.(buffer := None, size := 0, offset := 0);
      assert FrameOf(buffer) == frames[0];
      assert Inv(t1.(pool := Give(t1.pool, buffer).0), rest, frames[1..], capacity, count);
      AfterDelivery(t1, buffer, rest, cuts, frames, capacity, count, fuel);
    } else if t.offset > size {
      AfterCarry(t.(size := size), rest, cuts, frames, capacity, count, fuel);
    } else {
      var t1 := t.(size := size);
      assert Inv(t1, rest, frames, capacity, count);
      AfterRead(t1, rest, cuts, frames, capacity, count, fuel);
    }
  }

  /** The drive invariant with enough fuel: every remaining frame is delivered
      and then the stream reports its end. */
  lemma {:induction false} Run(s: Stream, rest: seq<byte>, cuts: seq<nat>,
                               frames: seq<seq<byte>>, capacity: nat, count: nat, fuel: nat)
    requires Inv(s, rest, frames, capacity, count)
    requires fuel > Measure(s, rest)
    ensures Drive(s, rest, cuts, fuel) == (frames, EndClosed)
    decreases fuel, 0
  {
    var t := TakeFirst(s, rest, frames, capacity, count);
    Dispatch(t, rest, cuts, frames, capacity, count, fuel - 1);
  }

  /** Chunk independence: a stream created with at least two buffers of
      `capacity` bytes, fed the concatenation of frames that each fit in a
      buffer, delivers exactly those frames in order and then closes,
      whatever the read sizes. */
  lemma DeliversEveryFrame(streamId: nat, sourceId: nat, frames: seq<seq<byte>>,
                           capacity: nat, count: nat, cuts: seq<nat>)
    requires 4 <= capacity && 2 <= count
    requires AllFitIn(frames, capacity)
    ensures Drive(Create(streamId, sourceId, count, capacity), Concat(frames), cuts,
                  2 * |Concat(frames)| + 2) == (frames, EndClosed)
  {
    var s := Create(streamId, sourceId, count, capacity);
    assert Inv(s, Concat(frames), frames, capacity, count);
    Run(s, Concat(frames), cuts, frames, capacity, count, 2 * |Concat(frames)| + 2);
  }

  /** The bound on the pool is needed: with a single buffer, a read that brings
      in the start of a second frame leaves the stream waiting for a buffer
      that only the delivery it is about to make would free. */
  lemma OneBufferStalls()
    ensures Drive(Create(0, 0, 1, 8), [4, 0, 0, 0, 4, 0, 0, 0], [8], 18) == ([], EndStalled)
  {
    var s := Create(0, 0, 1, 8);
    var b := s.pool.free[0];
    assert |s.pool.free| == 1 && |b| == 8;
    var t := s.(pool := Pool([], false), buffer := Some(b));
    assert Next(s) == AwaitRead(t, 8);
    var data: seq<byte> := [4, 0, 0, 0, 4, 0, 0, 0];
    assert data[..8] == data;
    assert b[..0] + data + b[8..] == data;
    assert ReadU32(data, 0) == 4;
    var t1 := t.(pool := Pool([], true), buffer := Some(data), offset := 8, size := 4);
    assert ResumeRead(t, Chunk(data)) == AwaitBuffer(t1, ForCarry);
  }
}
