/** The page's side of the protocol (ui/src/protocol.svelte.ts): the source
    id a page computes for a device stream, the framing of messages to the
    server, the handling of a message buffer from the transport worker, and
    the stream registry behind `startStream`. JSON is an opaque byte string;
    workers and painters are identities. */
module ClientProtocol {
  import opened Bytes
  import opened Wrappers
  import opened Framing

  /** `((deviceId << 8) & 0xffffff) | (streamIndex & 0xff)`. JavaScript's
      shift and mask work on the 32-bit two's complement of the operands, so
      for any integer the mask keeps the low 16 bits of the device id (taken
      modulo 2^16, which Dafny's `%` does for negative operands too) above
      the low 8 bits of the index. The two masked parts share no bit, so the
      `|` is a sum. */
  function SourceIdOf(deviceId: int, streamIndex: int): (r: nat)
    ensures r < TWO_24
    ensures r % 256 == streamIndex % 256
    ensures r / 256 == deviceId % TWO_16
  {
    (deviceId * 256) % TWO_24 + streamIndex % 256
  }

  /** Two pairs share a source id exactly when the indices agree on their low
      byte and the device ids on their low 16 bits. */
  lemma SourceIdCollisions(d1: int, i1: int, d2: int, i2: int)
    ensures SourceIdOf(d1, i1) == SourceIdOf(d2, i2) <==> i1 % 256 == i2 % 256 && d1 % TWO_16 == d2 % TWO_16
  {
    var a := SourceIdOf(d1, i1);
    var b := SourceIdOf(d2, i2);
    if i1 % 256 == i2 % 256 && d1 % TWO_16 == d2 % TWO_16 {
      assert a == a / 256 * 256 + a % 256;
      assert b == b / 256 * 256 + b % 256;
    }
  }

  /** `sendMessageToServer`: the serialized message behind its total length
      as a `u32`. */
  function MessageToServer(json: seq<byte>): (r: seq<byte>)
    requires |json| + 4 < TWO_32
    ensures IsFrame(r) && |r| == |json| + 4
    ensures r[4..] == json
  {
    PrefixedIsFrame(json);
    Prefixed(json)
  }

  /** What the page sends back to the transport worker: the buffer, with the
      id of the stream it came from. */
  datatype BufferReturn = BufferReturn(streamId: nat, buffer: seq<byte>)

  datatype InboundError = RangeError | SyntaxError

  /** A `TRANSPORT_TO_MAIN_BUFFER` message: the payload is the bytes `[4,
      size)` with `size` the buffer's own prefix. A buffer too short
      for the prefix, or a view outside the buffer (`size < 4` or `size >
      |buffer|`), throws a `RangeError`, and a payload
      that does not parse throws a `SyntaxError`; both happen before the
      buffer is returned, so a buffer is returned exactly when the payload is
      decoded. `parses` stands for `JSON.parse` succeeding. */
  function OnServerMessage(streamId: nat, buffer: seq<byte>, parses: seq<byte> -> bool): (r: Result<(seq<byte>, BufferReturn), InboundError>)
    ensures r.Err? <==> |buffer| < 4 || !(4 <= ReadU32(buffer, 0) <= |buffer|) || !parses(buffer[4..ReadU32(buffer, 0)])
    ensures |buffer| < 4 || !(4 <= ReadU32(buffer, 0) <= |buffer|) ==> r == Err(RangeError)
    ensures r.Ok? ==> 4 <= |buffer| && r.value.0 == buffer[4..ReadU32(buffer, 0)]
    ensures r.Ok? ==> r.value.1 == BufferReturn(streamId, buffer)
  {
    if |buffer| < 4 then Err(RangeError)
    else
      var size := ReadU32(buffer, 0);
      if size < 4 || size > |buffer| then Err(RangeError)
      else
        var payload := buffer[4..size];
        if !parses(payload) then Err(SyntaxError)
        else Ok((payload, BufferReturn(streamId, buffer)))
  }

  /** A frame at the front of a pooled buffer gives back exactly its payload,
      whatever the rest of the buffer holds. */
  lemma InboundFrame(json: seq<byte>, tail: seq<byte>, streamId: nat, parses: seq<byte> -> bool)
    requires |json| + 4 < TWO_32 && parses(json)
    ensures OnServerMessage(streamId, Prefixed(json) + tail, parses) == Ok((json, BufferReturn(streamId, Prefixed(json) + tail)))
  {
    PrefixedIsFrame(json);
    var b := Prefixed(json) + tail;
    ReadU32Local(b, Prefixed(json), 0);
    assert b[4..|json| + 4] == Prefixed(json)[4..];
  }

  /** The kind of a device stream in the shared state. */
  datatype StreamKind = Evt3(width: nat, height: nat) | Evk4Samples

  datatype DeviceInfo = DeviceInfo(id: int, streams: seq<StreamKind>)

  /** A decode worker and painter pair, known by the stream it draws. */
  datatype Pipeline = Pipeline(sourceId: nat, width: nat, height: nat)

  datatype StartError = TooFewStreams | DeviceNotFound | NotImplemented

  /** The position of the first device with this id, the one the loop in
      `startStream` stops at. */
  function FirstDevice(devices: seq<DeviceInfo>, deviceId: int): (r: Option<nat>)
    ensures r.Some? ==> r.value < |devices| && devices[r.value].id == deviceId
    ensures r.Some? ==> forall k :: 0 <= k < r.value ==> devices[k].id != deviceId
    ensures r.None? ==> forall k :: 0 <= k < |devices| ==> devices[k].id != deviceId
    decreases |devices|
  {
    if |devices| == 0 then None
    else if devices[0].id == deviceId then Some(0)
    else
      match FirstDevice(devices[1..], deviceId)
      case None => None
      case Some(k) => Some(k + 1)
  }

  /** `startStream`: the first device with the id decides. An index at or
      past its stream count throws; a negative index reads `undefined`,
      which the null check reports as a missing device, like a missing id.
      A known source id returns its existing pipeline; otherwise an EVT3
      stream gets a new pipeline, registered under the source id, and any
      other kind throws. */
  function StartStream(devices: seq<DeviceInfo>, registry: map<nat, Pipeline>, deviceId: int, streamIndex: int): (r: Result<(map<nat, Pipeline>, Pipeline), StartError>)
    ensures r.Ok? ==> r.value.0 == registry[SourceIdOf(deviceId, streamIndex) := r.value.1]
    ensures r.Ok? ==> r.value.1.sourceId == SourceIdOf(deviceId, streamIndex) || SourceIdOf(deviceId, streamIndex) in registry
    ensures r.Ok? && SourceIdOf(deviceId, streamIndex) in registry ==> r.value == (registry, registry[SourceIdOf(deviceId, streamIndex)])
    ensures r == Err(DeviceNotFound) <==> FirstDevice(devices, deviceId).None? || streamIndex < 0
    ensures r == Err(TooFewStreams) <==>
      FirstDevice(devices, deviceId).Some? && streamIndex >= |devices[FirstDevice(devices, deviceId).value].streams|
    ensures FirstDevice(devices, deviceId).Some? && 0 <= streamIndex < |devices[FirstDevice(devices, deviceId).value].streams| ==>
      var kind := devices[FirstDevice(devices, deviceId).value].streams[streamIndex];
      && (r.Ok? <==> SourceIdOf(deviceId, streamIndex) in registry || kind.Evt3?)
      && (r == Err(NotImplemented) <==> SourceIdOf(deviceId, streamIndex) !in registry && kind.Evk4Samples?)
      && (SourceIdOf(deviceId, streamIndex) !in registry && kind.Evt3? ==>
            r.value.1 == Pipeline(SourceIdOf(deviceId, streamIndex), kind.width, kind.height))
  {
    var sourceId := SourceIdOf(deviceId, streamIndex);
    match FirstDevice(devices, deviceId)
    case None => Err(DeviceNotFound)
    case Some(k) =>
      if streamIndex >= |devices[k].streams| then Err(TooFewStreams)
      else if streamIndex < 0 then Err(DeviceNotFound)
      else if sourceId in registry then Ok((registry, registry[sourceId]))
      else
        match devices[k].streams[streamIndex]
        case Evt3(width, height) =>
          var p := Pipeline(sourceId, width, height);
          Ok((registry[sourceId := p], p))
        case Evk4Samples => Err(NotImplemented)
  }

  /** Starting a stream twice gives the same pipeline and registers nothing
      more the second time. */
  lemma StartStreamTwice(devices: seq<DeviceInfo>, registry: map<nat, Pipeline>, deviceId: int, streamIndex: int)
    requires StartStream(devices, registry, deviceId, streamIndex).Ok?
    ensures var (after, p) := StartStream(devices, registry, deviceId, streamIndex).value;
      StartStream(devices, after, deviceId, streamIndex) == Ok((after, p))
  {
  }

  /** Every registered pipeline is filed under its own source id. */
  predicate RegistryValid(registry: map<nat, Pipeline>)
  {
    forall id :: id in registry ==> registry[id].sourceId == id
  }

  lemma StartStreamKeepsRegistryValid(devices: seq<DeviceInfo>, registry: map<nat, Pipeline>, deviceId: int, streamIndex: int)
    requires RegistryValid(registry)
    ensures var r := StartStream(devices, registry, deviceId, streamIndex);
      r.Ok? ==> RegistryValid(r.value.0) && r.value.1.sourceId == SourceIdOf(deviceId, streamIndex)
  {
  }
}
