/** The server's side of the wire format (src/protocol.rs): the 12-byte stream
    description that opens every unidirectional stream, the length-prefixed
    control messages, and the recording states the catalogue reports. */
module ServerProtocol {
  import opened Bytes
  import opened Wrappers
  import opened Framing
  import opened Constants

  /** `RecordingState`: a recording still being written, one missing some of
      its four files, or a complete one, possibly queued for or undergoing
      conversion to a zip archive. */
  datatype RecordingState =
    | Ongoing
    | Incomplete(size: nat)
    | Complete(size: nat, zip: bool)
    | Queued(size: nat, zip: bool)
    | Converting(size: nat, zip: bool)

  datatype Recording = Recording(name: string, state: RecordingState)

  /** `stream_description`: the stream id, the recommended buffer count and the
      maximum packet length, each as a little-endian `u32`. */
  function StreamDescription(streamId: nat, count: nat, maximumLength: nat): (r: seq<byte>)
    requires streamId < TWO_32 && count < TWO_32 && maximumLength < TWO_32
    ensures |r| == 12
    ensures ReadU32(r, 0) == streamId && ReadU32(r, 4) == count && ReadU32(r, 8) == maximumLength
  {
    var r := LeU32(streamId) + LeU32(count) + LeU32(maximumLength);
    ReadLeU32(streamId);
    ReadLeU32(count);
    ReadLeU32(maximumLength);
    ReadU32Local(r, LeU32(streamId), 0);
    ReadU32Shift(r, 4);
    assert r[4..][..4] == LeU32(count);
    ReadU32Local(r[4..], LeU32(count), 0);
    ReadU32Shift(r, 8);
    assert r[8..] == LeU32(maximumLength);
    r
  }

  datatype EncodeError = SerializeFailed | TooLong(length: nat)

  /** `ServerMessage::to_bytes`. `serialized` is what the JSON serializer
      writes after the four reserved bytes (`None` when it fails). The prefix
      is the total length truncated to `u32`; the size check comes after the
      prefix is written and rejects messages longer than
      `MESSAGE_MAXIMUM_LENGTH`. */
  function ToBytes(serialized: Option<seq<byte>>): (r: Result<seq<byte>, EncodeError>)
    ensures serialized.None? ==> r == Err(SerializeFailed)
    ensures serialized.Some? ==> (r.Err? <==> |serialized.value| + 4 > MESSAGE_MAXIMUM_LENGTH)
    ensures r.Err? && serialized.Some? ==> r.error == TooLong(|serialized.value| + 4)
    ensures r.Ok? ==> |r.value| <= MESSAGE_MAXIMUM_LENGTH
  {
    match serialized
    case None => Err(SerializeFailed)
    case Some(json) =>
      var length := |json| + 4;
      var bytes := LeU32(length % TWO_32) + json;
      if |bytes| > MESSAGE_MAXIMUM_LENGTH then Err(TooLong(|bytes|)) else Ok(bytes)
  }

  /** An accepted message is a well-formed frame: its prefix is its own total
      length and the serializer's output follows unchanged. */
  lemma ToBytesIsFrame(json: seq<byte>)
    requires ToBytes(Some(json)).Ok?
    ensures IsFrame(ToBytes(Some(json)).value)
    ensures ToBytes(Some(json)).value == Prefixed(json)
    ensures ToBytes(Some(json)).value[4..] == json
  {
    var length := |json| + 4;
    assert length <= MESSAGE_MAXIMUM_LENGTH;
    assert length % TWO_32 == length;
    assert ToBytes(Some(json)).value == LeU32(length) + json;
    PrefixedIsFrame(json);
  }
}
