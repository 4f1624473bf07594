/** The pure parts of the device side of the server (src/device.rs): stream
    ids, the 34-byte header that frames every EVT3 packet, and the hand-off of
    pooled buffers to the clients subscribed to a stream. */
module Device {
  import opened Bytes
  import opened Wrappers
  import opened Constants
  import opened BufferStack

  /** `StreamId::new`: the stream index as the low byte and the low 24 bits of
      the device id as the three bytes above it, read back as a
      little-endian `u32`. */
  function StreamIdOf(deviceId: nat, streamIndex: nat): (r: nat)
    requires deviceId < TWO_32 && streamIndex < 256
    ensures r < TWO_32
    ensures r == streamIndex + 256 * (deviceId % TWO_24)
  {
    var d := deviceId % TWO_24;
    var bytes := [streamIndex] + LeU32(d)[0..3];
    ReadLeU32(d);
    Split16777216(d, d, 0);
    ReadU32(bytes, 0)
  }

  /** The stream index is recovered from the low byte and the device id from
      the bits above; so ids are equal exactly when the indices are and the
      device ids agree on their low 24 bits. */
  lemma StreamIdInjective(d1: nat, i1: nat, d2: nat, i2: nat)
    requires d1 < TWO_32 && d2 < TWO_32 && i1 < 256 && i2 < 256
    ensures StreamIdOf(d1, i1) == StreamIdOf(d2, i2) <==> i1 == i2 && d1 % TWO_24 == d2 % TWO_24
  {
    var a := StreamIdOf(d1, i1);
    var b := StreamIdOf(d2, i2);
    Split256(a, i1, d1 % TWO_24);
    Split256(b, i2, d2 % TWO_24);
  }

  /** Device ids that differ only above bit 24 share their stream ids. */
  lemma HighDeviceIdsCollide(d: nat, i: nat)
    requires d + TWO_24 < TWO_32 && i < 256
    ensures StreamIdOf(d, i) == StreamIdOf(d + TWO_24, i)
  {
    assert (d + TWO_24) % TWO_24 == d % TWO_24;
  }

  /** The decoder state of an EVT3 camera when a packet starts (field widths
      as in the driver: `t` is a `u64`, `overflows` a `u32`, the rest `u16`). */
  datatype Evt3State = Evt3State(t: nat, overflows: nat, previousMsbT: nat, previousLsbT: nat, x: nat, y: nat, polarity: bool)

  predicate WellSized(state: Evt3State)
  {
    && state.t < TWO_64 && state.overflows < TWO_32
    && state.previousMsbT < TWO_16 && state.previousLsbT < TWO_16
    && state.x < TWO_16 && state.y < TWO_16
  }

  /** The size of the header in front of the event bytes. */
  const HEADER_LENGTH: nat := 34

  /** How many event bytes a packet carries: all of them, or as many as fit
      in `PACKET_MAXIMUM_LENGTH` with the header. */
  function DataLength(available: nat): (r: nat)
    ensures r <= available && r + HEADER_LENGTH <= PACKET_MAXIMUM_LENGTH
    ensures r == available || r + HEADER_LENGTH == PACKET_MAXIMUM_LENGTH
  {
    if available < PACKET_MAXIMUM_LENGTH - HEADER_LENGTH then available else PACKET_MAXIMUM_LENGTH - HEADER_LENGTH
  }

  /** The packet `Device::run` builds in a pooled buffer: the total length,
      the start state, the end timestamp, then the (possibly truncated) event
      bytes. */
  function Packet(state: Evt3State, endT: nat, data: seq<byte>): (r: seq<byte>)
    requires WellSized(state) && endT < TWO_64
    ensures |r| == DataLength(|data|) + HEADER_LENGTH <= PACKET_MAXIMUM_LENGTH
    ensures ReadU32(r, 0) == |r|
    ensures r[HEADER_LENGTH..] == data[..DataLength(|data|)]
    ensures ReadU64(r, 4) == state.t && ReadU32(r, 12) == state.overflows
    ensures ReadU16(r, 16) == state.previousMsbT && ReadU16(r, 18) == state.previousLsbT
    ensures ReadU16(r, 20) == state.x && ReadU16(r, 22) == state.y
    ensures ReadU16(r, 24) == (if state.polarity then 1 else 0)
    ensures ReadU64(r, 26) == endT
  {
    var dataLength := DataLength(|data|);
    var total := dataLength + HEADER_LENGTH;
    var r := LeU32(total) + LeU64(state.t) + LeU32(state.overflows)
      + LeU16(state.previousMsbT) + LeU16(state.previousLsbT)
      + LeU16(state.x) + LeU16(state.y) + LeU16(if state.polarity then 1 else 0)
      + LeU64(endT) + data[..dataLength];
    ReadBack(r, total, state, endT);
    r
  }

  /** Each field of the header reads back at its offset. */
  lemma ReadBack(r: seq<byte>, total: nat, state: Evt3State, endT: nat)
    requires WellSized(state) && endT < TWO_64 && total < TWO_32
    requires |r| >= HEADER_LENGTH
    requires r[..HEADER_LENGTH] == LeU32(total) + LeU64(state.t) + LeU32(state.overflows)
      + LeU16(state.previousMsbT) + LeU16(state.previousLsbT)
      + LeU16(state.x) + LeU16(state.y) + LeU16(if state.polarity then 1 else 0)
      + LeU64(endT)
    ensures ReadU32(r, 0) == total && ReadU64(r, 4) == state.t && ReadU32(r, 12) == state.overflows
    ensures ReadU16(r, 16) == state.previousMsbT && ReadU16(r, 18) == state.previousLsbT
    ensures ReadU16(r, 20) == state.x && ReadU16(r, 22) == state.y
    ensures ReadU16(r, 24) == (if state.polarity then 1 else 0)
    ensures ReadU64(r, 26) == endT
  {
    var h := r[..HEADER_LENGTH];
    assert h[4..12] == LeU64(state.t) && h[26..34] == LeU64(endT);
    assert r[4..12] == h[4..12] && r[26..34] == h[26..34];
    ReadLeU64At(r, 4, state.t);
    ReadLeU64At(r, 26, endT);
    assert h[0..4] == LeU32(total) && h[12..16] == LeU32(state.overflows);
    assert r[0..4] == h[0..4] && r[12..16] == h[12..16];
    ReadU32Local(r, LeU32(total) + [], 0);
    ReadLeU32(total);
    ReadU32Shift(r, 12);
    ReadU32Local(r[12..], LeU32(state.overflows), 0);
    ReadLeU32(state.overflows);
    assert r[16] == h[16] && r[17] == h[17] && r[18] == h[18] && r[19] == h[19];
    assert r[20] == h[20] && r[21] == h[21] && r[22] == h[22] && r[23] == h[23];
    assert r[24] == h[24] && r[25] == h[25];
  }

  /** A subscriber of the stream, as `Device::run` sees it: its client id and
      whether its channel has room (`try_reserve` succeeds). */
  datatype Subscriber = Subscriber(clientId: nat, hasRoom: bool)

  function CountRoom(subscribers: seq<Subscriber>): (r: nat)
    ensures r <= |subscribers|
  {
    if |subscribers| == 0 then 0
    else (if subscribers[0].hasRoom then 1 else 0) + CountRoom(subscribers[1..])
  }

  /** The client ids of the subscribers with room, in router order. */
  function RoomIds(subscribers: seq<Subscriber>): (r: seq<nat>)
    ensures |r| == CountRoom(subscribers)
  {
    if |subscribers| == 0 then []
    else (if subscribers[0].hasRoom then [subscribers[0].clientId] else []) + RoomIds(subscribers[1..])
  }

  /** The end of a packet period: for each subscriber in router order a
      buffer is popped; none means this subscriber gets nothing; otherwise the
      packet is built in it and either sent (second component) or pushed
      back. No buffer is ever dropped: buffers in the stack plus buffers sent
      is the stack's size before. A subscriber without room pops a buffer and
      pushes it back, so the packets go to the subscribers with room, in
      router order, while buffers last. */
  function Distribute(stack: Stack, subscribers: seq<Subscriber>, state: Evt3State, endT: nat, data: seq<byte>): (r: (Stack, seq<(nat, seq<byte>)>))
    requires Valid(stack) && WellSized(state) && endT < TWO_64
    ensures Valid(r.0)
    ensures |r.0.inner| + |r.1| == |stack.inner|
    ensures |r.1| == Min(|stack.inner|, CountRoom(subscribers))
    ensures forall k :: 0 <= k < |r.1| ==> r.1[k].0 == RoomIds(subscribers)[k]
    ensures forall k :: 0 <= k < |r.1| ==> r.1[k].1 == Packet(state, endT, data)
    ensures |stack.inner| == 0 ==> r.1 == []
    decreases |subscribers|
  {
    if |subscribers| == 0 then (stack, [])
    else
      var (popped, buffer) := Pop(stack, 0);
      match buffer
      case None => Distribute(popped, subscribers[1..], state, endT, data)
      case Some(_) =>
        var packet := Packet(state, endT, data);
        if subscribers[0].hasRoom then
          var (after, sent) := Distribute(popped, subscribers[1..], state, endT, data);
          (after, [(subscribers[0].clientId, packet)] + sent)
        else
          Distribute(Push(popped, packet, 0), subscribers[1..], state, endT, data)
  }
}
