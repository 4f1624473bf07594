/** The control-message reassembler of the server's connection loop
    (`manage_connection` in src/client.rs): one buffer of
    `MESSAGE_MAXIMUM_LENGTH` bytes, an offset and a declared length (0 while
    unknown). Every complete message's payload goes to the JSON parser and
    the handler; a handler error ends the connection. JSON parsing and the
    handler are abstract: `fatal(payload)` says whether handling that payload
    returns an error. A payload that does not parse is logged and consumed,
    which is the non-fatal case. */
module ServerReassembler {
  import opened Bytes
  import opened Framing
  import opened Constants

  datatype Connection = Connection(buffer: seq<byte>, offset: nat, length: nat)

  /** How the message loop ends: waiting for more bytes, on a handler error,
      or on the panic of slicing `[4, length)` with a length below 4. */
  datatype Status = Running | HandlerFailed | Panicked

  datatype Drained = Drained(connection: Connection, handled: seq<seq<byte>>, status: Status)

  /** The connection's state before its first read. */
  function Initial(): (c: Connection)
    ensures |c.buffer| == MESSAGE_MAXIMUM_LENGTH && c.offset == 0 && c.length == 0
  {
    Connection(seq(MESSAGE_MAXIMUM_LENGTH, _ => 0), 0, 0)
  }

  /** The `'message` loop: while four bytes are in, learn the length; stop
      while the message is incomplete; otherwise hand `[4, length)` to the
      handler, move `[length, offset)` to the front and forget the length. */
  function Messages(c: Connection, fatal: seq<byte> -> bool): (r: Drained)
    requires c.offset <= |c.buffer|
    ensures r.connection.offset <= |r.connection.buffer| == |c.buffer|
    ensures r.status == Running ==>
      r.connection.offset < 4 || r.connection.offset < r.connection.length
    ensures forall i :: 0 <= i < |r.handled| ==> 
      (!fatal(r.handled[i]) || (i == |r.handled| - 1 && r.status == HandlerFailed))
    decreases c.offset
  {
    if c.offset < 4 then Drained(c, [], Running)
    else
      var length := if c.length == 0 then ReadU32(c.buffer, 0) else c.length;
      if c.offset < length then Drained(c.(length := length), [], Running)
      else if length < 4 then Drained(c.(length := length), [], Panicked)
      else
        var payload := c.buffer[4..length];
        if fatal(payload) then Drained(c.(length := length), [payload], HandlerFailed)
        else
          var moved := c.buffer[length..c.offset] + c.buffer[c.offset - length..];
          var r := Messages(Connection(moved, c.offset - length, 0), fatal);
          Drained(r.connection, [payload] + r.handled, r.status)
  }

  /** A read of `data` into `buffer[offset..]` followed by the message loop:
      the buffer keeps its size and only the last payload handed over can be
      one whose handling fails. */
  function Receive(c: Connection, data: seq<byte>, fatal: seq<byte> -> bool): (r: Drained)
    requires c.offset + |data| <= |c.buffer|
    ensures r.connection.offset <= |r.connection.buffer| == |c.buffer|
    ensures forall i :: 0 <= i < |r.handled| ==>
      !fatal(r.handled[i]) || (i == |r.handled| - 1 && r.status == HandlerFailed)
  {
    var written := c.buffer[..c.offset] + data + c.buffer[c.offset + |data|..];
    Messages(Connection(written, c.offset + |data|, c.length), fatal)
  }

  /** The connection loop reading `rest` split by `cuts` until it is
      exhausted, the loop stops, or the buffer is full. */
  function Feed(c: Connection, rest: seq<byte>, cuts: seq<nat>, fatal: seq<byte> -> bool): (r: (seq<seq<byte>>, Status))
    requires c.offset <= |c.buffer|
    ensures forall i :: 0 <= i < |r.0| ==> !fatal(r.0[i]) || (i == |r.0| - 1 && r.1 == HandlerFailed)
    decreases |rest|, 0
  {
    if |rest| == 0 || c.offset == |c.buffer| then ([], Running)
    else
      var k := ChunkSize(|c.buffer| - c.offset, |rest|, cuts);
      Continue(Receive(c, rest[..k], fatal), rest[k..], Later(cuts), fatal)
  }

  /** After a read and its message loop: a stopped loop ends the
      connection, a running one reads on. */
  function Continue(d: Drained, rest: seq<byte>, cuts: seq<nat>, fatal: seq<byte> -> bool): (r: (seq<seq<byte>>, Status))
    requires d.connection.offset <= |d.connection.buffer|
    ensures (forall i :: 0 <= i < |d.handled| ==>
               !fatal(d.handled[i]) || (i == |d.handled| - 1 && d.status == HandlerFailed)) ==>
      forall i :: 0 <= i < |r.0| ==> !fatal(r.0[i]) || (i == |r.0| - 1 && r.1 == HandlerFailed)
    decreases |rest|, 1
  {
    if d.status != Running then (d.handled, d.status)
    else
      var f := Feed(d.connection, rest, cuts, fatal);
      (d.handled + f.0, f.1)
  }

  /** The pending bytes followed by the unsent ones are the remaining
      messages, and a known length is the length of the first of them. */
  predicate Inv(c: Connection, rest: seq<byte>, frames: seq<seq<byte>>)
  {
    && c.offset <= |c.buffer|
    && AllFitIn(frames, |c.buffer|)
    && c.buffer[..c.offset] + rest == Concat(frames)
    && (c.length != 0 ==> |frames| > 0 && c.length == |frames[0]|)
  }

  /** The message loop has handled every complete message. */
  predicate Waiting(c: Connection, frames: seq<seq<byte>>)
  {
    c.offset < 4 || (|frames| > 0 && c.offset < |frames[0]|)
  }

  predicate NoneFatal(frames: seq<seq<byte>>, fatal: seq<byte> -> bool)
    requires forall i :: 0 <= i < |frames| ==> 4 <= |frames[i]|
  {
    forall i :: 0 <= i < |frames| ==> !fatal(frames[i][4..])
  }

  lemma PayloadsSplit(frames: seq<seq<byte>>, j: nat)
    requires forall i :: 0 <= i < |frames| ==> 4 <= |frames[i]|
    requires j <= |frames|
    ensures Payloads(frames[..j]) + Payloads(frames[j..]) == Payloads(frames)
  {
  }

  /** Once four bytes are in, the length the loop uses is that of the first
      remaining message. */
  lemma KnownLength(c: Connection, rest: seq<byte>, frames: seq<seq<byte>>)
    requires Inv(c, rest, frames) && c.offset >= 4
    ensures |frames| > 0 && 4 <= |frames[0]| <= |c.buffer|
    ensures (if c.length == 0 then ReadU32(c.buffer, 0) else c.length) == |frames[0]|
  {
    if c.length == 0 {
      HeaderOfPending(c.buffer, c.offset, rest, frames, |c.buffer|);
    }
    assert FitsIn(frames[0], |c.buffer|);
  }

  /** A complete first message: its payload is handled and the loop goes on
      with the bytes after it at the front of the buffer. */
  lemma FrontMessage(c: Connection, rest: seq<byte>, frames: seq<seq<byte>>, fatal: seq<byte> -> bool)
    returns (next: Connection)
    requires Inv(c, rest, frames) && NoneFatal(frames, fatal) && c.offset >= 4
    requires |frames| > 0 && 4 <= |frames[0]| <= c.offset
    requires (if c.length == 0 then ReadU32(c.buffer, 0) else c.length) == |frames[0]|
    ensures Inv(next, rest, frames[1..]) && NoneFatal(frames[1..], fatal)
    ensures next.offset < c.offset
    ensures Messages(c, fatal)
      == var r := Messages(next, fatal); Drained(r.connection, [frames[0][4..]] + r.handled, r.status)
  {
    var length := |frames[0]|;
    SplitPending(c.buffer, c.offset, rest, frames);
    assert c.buffer[4..length] == frames[0][4..];
    var moved := c.buffer[length..c.offset] + c.buffer[c.offset - length..];
    next := Connection(moved, c.offset - length, 0);
    assert moved[..c.offset - length] == c.buffer[length..c.offset];
    assert AllFitIn(frames[1..], |c.buffer|) by {
      forall i | 0 <= i < |frames[1..]| ensures FitsIn(frames[1..][i], |c.buffer|) {
        assert frames[1..][i] == frames[i + 1];
      }
    }
    NoneFatalSuffix(frames, 1, fatal);
  }

  /** The message loop hands over the payloads of the complete messages in the
      buffer, in order, and leaves the rest pending. */
  lemma {:induction false} DrainHandlesComplete(c: Connection, rest: seq<byte>, frames: seq<seq<byte>>,
                                                fatal: seq<byte> -> bool)
    returns (j: nat)
    requires Inv(c, rest, frames) && NoneFatal(frames, fatal)
    ensures j <= |frames|
    ensures Messages(c, fatal).status == Running
    ensures Messages(c, fatal).handled == Payloads(frames[..j])
    ensures Inv(Messages(c, fatal).connection, rest, frames[j..])
    ensures Waiting(Messages(c, fatal).connection, frames[j..])
    decreases c.offset
  {
    if c.offset < 4 {
      return 0;
    }
    KnownLength(c, rest, frames);
    if c.offset < |frames[0]| {
      return 0;
    }
    var next := FrontMessage(c, rest, frames, fatal);
    var j' := DrainHandlesComplete(next, rest, frames[1..], fatal);
    j := j' + 1;
    PayloadsAfterFront(frames, j');
  }

  lemma PayloadsAfterFront(frames: seq<seq<byte>>, j: nat)
    requires forall i :: 0 <= i < |frames| ==> 4 <= |frames[i]|
    requires 0 < |frames| && j < |frames|
    ensures frames[1..][j..] == frames[j + 1..]
    ensures Payloads(frames[..j + 1]) == [frames[0][4..]] + Payloads(frames[1..][..j])
  {
    assert frames[..j + 1] == [frames[0]] + frames[1..][..j];
    assert frames[..j + 1][1..] == frames[1..][..j];
  }

  /** With nothing left to send, a waiting loop has handled every message. */
  lemma NothingLeft(c: Connection, frames: seq<seq<byte>>)
    requires Inv(c, [], frames) && Waiting(c, frames)
    ensures frames == []
  {
    FirstFrame(frames, |c.buffer|);
  }

  /** A read of the next `k` bytes extends the pending region by them. */
  lemma ReadExtends(c: Connection, rest: seq<byte>, frames: seq<seq<byte>>, k: nat)
    requires Inv(c, rest, frames) && k <= |rest| && c.offset + k <= |c.buffer|
    ensures Inv(Connection(c.buffer[..c.offset] + rest[..k] + c.buffer[c.offset + k..], c.offset + k, c.length),
                rest[k..], frames)
  {
    var written := c.buffer[..c.offset] + rest[..k] + c.buffer[c.offset + k..];
    assert written[..c.offset + k] == c.buffer[..c.offset] + rest[..k];
    assert rest == rest[..k] + rest[k..];
  }

  lemma NoneFatalSuffix(frames: seq<seq<byte>>, j: nat, fatal: seq<byte> -> bool)
    requires forall i :: 0 <= i < |frames| ==> 4 <= |frames[i]|
    requires j <= |frames| && NoneFatal(frames, fatal)
    ensures NoneFatal(frames[j..], fatal)
  {
    forall i | 0 <= i < |frames[j..]| ensures !fatal(frames[j..][i][4..]) {
      assert frames[j..][i] == frames[i + j];
    }
  }

  /** A waiting loop with bytes still to come has room in its buffer. */
  lemma RoomToRead(c: Connection, rest: seq<byte>, frames: seq<seq<byte>>)
    requires Inv(c, rest, frames) && Waiting(c, frames) && |rest| > 0
    ensures c.offset < |c.buffer|
  {
    FirstFrame(frames, |c.buffer|);
    assert |Concat(frames)| > 0;
  }

  /** One read followed by the message loop. */
  lemma ReadThenDrain(c: Connection, rest: seq<byte>, frames: seq<seq<byte>>, cuts: seq<nat>,
                      fatal: seq<byte> -> bool)
    returns (j: nat, k: nat)
    requires Inv(c, rest, frames) && Waiting(c, frames) && NoneFatal(frames, fatal)
    requires 0 < |rest| && c.offset < |c.buffer|
    ensures k == ChunkSize(|c.buffer| - c.offset, |rest|, cuts) && j <= |frames|
    ensures var d := Receive(c, rest[..k], fatal);
      && d.status == Running && d.handled == Payloads(frames[..j])
      && Inv(d.connection, rest[k..], frames[j..]) && Waiting(d.connection, frames[j..])
      && NoneFatal(frames[j..], fatal)
  {
    k := ChunkSize(|c.buffer| - c.offset, |rest|, cuts);
    var read := Connection(c.buffer[..c.offset] + rest[..k] + c.buffer[c.offset + k..], c.offset + k, c.length);
    ReadExtends(c, rest, frames, k);
    j := DrainHandlesComplete(read, rest[k..], frames, fatal);
    assert Receive(c, rest[..k], fatal) == Messages(read, fatal);
    NoneFatalSuffix(frames, j, fatal);
  }

  lemma FeedUnfold(c: Connection, rest: seq<byte>, cuts: seq<nat>, fatal: seq<byte> -> bool, k: nat, d: Drained)
    requires 0 < |rest| && c.offset < |c.buffer|
    requires k == ChunkSize(|c.buffer| - c.offset, |rest|, cuts)
    requires d == Receive(c, rest[..k], fatal) && d.status == Running
    ensures var f := Feed(d.connection, rest[k..], Later(cuts), fatal);
      Feed(c, rest, cuts, fatal) == (d.handled + f.0, f.1)
  {
    FeedStep(c, rest, cuts, fatal, k, d);
    ContinueRunning(d, rest[k..], Later(cuts), fatal);
  }

  lemma FeedStep(c: Connection, rest: seq<byte>, cuts: seq<nat>, fatal: seq<byte> -> bool, k: nat, d: Drained)
    requires 0 < |rest| && c.offset < |c.buffer|
    requires k == ChunkSize(|c.buffer| - c.offset, |rest|, cuts)
    requires d == Receive(c, rest[..k], fatal)
    ensures Feed(c, rest, cuts, fatal) == Continue(d, rest[k..], Later(cuts), fatal)
  {
  }

  lemma ContinueRunning(d: Drained, rest: seq<byte>, cuts: seq<nat>, fatal: seq<byte> -> bool)
    requires d.connection.offset <= |d.connection.buffer| && d.status == Running
    ensures var f := Feed(d.connection, rest, cuts, fatal);
      Continue(d, rest, cuts, fatal) == (d.handled + f.0, f.1)
  {
  }

  /** Chunk independence: however the client's byte stream of messages that
      each fit in the buffer is split into reads, every payload reaches the
      handler exactly once, in order. */
  lemma {:induction false} FeedHandlesEveryMessage(c: Connection, rest: seq<byte>, frames: seq<seq<byte>>,
                                                   cuts: seq<nat>, fatal: seq<byte> -> bool)
    requires Inv(c, rest, frames) && Waiting(c, frames) && NoneFatal(frames, fatal)
    ensures Feed(c, rest, cuts, fatal) == (Payloads(frames), Running)
    decreases |rest|
  {
    if |rest| == 0 {
      NothingLeft(c, frames);
      return;
    }
    RoomToRead(c, rest, frames);
    var j, k := ReadThenDrain(c, rest, frames, cuts, fatal);
    var d := Receive(c, rest[..k], fatal);
    FeedHandlesEveryMessage(d.connection, rest[k..], frames[j..], Later(cuts), fatal);
    FeedUnfold(c, rest, cuts, fatal, k, d);
    PayloadsSplit(frames, j);
  }

  /** From a fresh connection: the whole client stream. */
  lemma HandlesEveryMessage(frames: seq<seq<byte>>, cuts: seq<nat>, fatal: seq<byte> -> bool)
    requires AllFitIn(frames, MESSAGE_MAXIMUM_LENGTH) && NoneFatal(frames, fatal)
    ensures Feed(Initial(), Concat(frames), cuts, fatal) == (Payloads(frames), Running)
  {
    FeedHandlesEveryMessage(Initial(), Concat(frames), frames, cuts, fatal);
  }
}
