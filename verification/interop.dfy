/** Where the two sides meet: what one side writes, the other reads back. */
module Interop {
  import opened Bytes
  import opened Wrappers
  import opened Framing
  import opened Constants
  import ServerProtocol
  import TransportSession
  import ClientProtocol
  import Device
  import ServerReassembler
  import Reassembler
  import ReassemblerProof

  /** The 12-byte handshake the server writes on every stream is parsed by
      the transport worker back into its three fields. */
  lemma DescriptionRoundTrip(streamId: nat, count: nat, maximumLength: nat)
    requires streamId < TWO_32 && count < TWO_32 && maximumLength < TWO_32
    ensures TransportSession.ParseDescription(ServerProtocol.StreamDescription(streamId, count, maximumLength))
      == (streamId, count, maximumLength)
  {
  }

  /** The page's source id and the server's stream id agree for device ids
      below 2^16. */
  lemma SourceIdAgreesBelow16Bits(deviceId: nat, streamIndex: nat)
    requires deviceId < TWO_16 && streamIndex < 256
    ensures ClientProtocol.SourceIdOf(deviceId, streamIndex) == Device.StreamIdOf(deviceId, streamIndex)
  {
  }

  /** From device id 2^16 on they part: the server files the first stream of
      device 65536 under 2^24, the page looks it up under 0 (the id of the
      first stream of device 0). */
  lemma SourceIdDisagreesAt16Bits()
    ensures Device.StreamIdOf(TWO_16, 0) == TWO_24
    ensures ClientProtocol.SourceIdOf(TWO_16, 0) == 0 == ClientProtocol.SourceIdOf(0, 0)
  {
  }

  /** The frames of a run of page messages. */
  function PageFrames(jsons: seq<seq<byte>>): (r: seq<seq<byte>>)
    requires forall k :: 0 <= k < |jsons| ==> |jsons[k]| + 4 <= MESSAGE_MAXIMUM_LENGTH
    ensures |r| == |jsons|
    ensures AllFitIn(r, MESSAGE_MAXIMUM_LENGTH)
    ensures Payloads(r) == jsons
  {
    var r := seq(|jsons|, k requires 0 <= k < |jsons| => ClientProtocol.MessageToServer(jsons[k]));
    assert Payloads(r) == jsons;
    r
  }

  /** Messages the page sends back to back, however the network splits
      them, reach the server's parser unchanged and in order (none of them
      being one that ends the connection). */
  lemma PageMessagesReachServer(jsons: seq<seq<byte>>, cuts: seq<nat>, fatal: seq<byte> -> bool)
    requires forall k :: 0 <= k < |jsons| ==> |jsons[k]| + 4 <= MESSAGE_MAXIMUM_LENGTH && !fatal(jsons[k])
    ensures ServerReassembler.Feed(ServerReassembler.Initial(), Concat(PageFrames(jsons)), cuts, fatal) == (jsons, ServerReassembler.Running)
  {
    var frames := PageFrames(jsons);
    assert ServerReassembler.NoneFatal(frames, fatal) by {
      forall i | 0 <= i < |frames|
        ensures !fatal(frames[i][4..])
      {
        assert frames[i][4..] == Payloads(frames)[i] == jsons[i];
      }
    }
    ServerReassembler.HandlesEveryMessage(frames, cuts, fatal);
  }

  /** Server messages that encoded without error, written back to back on
      the message stream, come out of a transport-worker stream with buffers
      of `MESSAGE_MAXIMUM_LENGTH` bytes as the same frames, and each frame's
      payload is the serialized message. */
  lemma ServerMessagesReachPage(jsons: seq<seq<byte>>, streamId: nat, sourceId: nat, count: nat, cuts: seq<nat>)
    requires 2 <= count
    requires forall k :: 0 <= k < |jsons| ==> ServerProtocol.ToBytes(Some(jsons[k])).Ok?
    ensures var frames := seq(|jsons|, k requires 0 <= k < |jsons| => ServerProtocol.ToBytes(Some(jsons[k])).value);
      && ReassemblerProof.Drive(Reassembler.Create(streamId, sourceId, count, MESSAGE_MAXIMUM_LENGTH), Concat(frames), cuts,
           2 * |Concat(frames)| + 2) == (frames, ReassemblerProof.EndClosed)
      && Payloads(frames) == jsons
  {
    var frames := seq(|jsons|, k requires 0 <= k < |jsons| => ServerProtocol.ToBytes(Some(jsons[k])).value);
    forall k | 0 <= k < |jsons|
      ensures FitsIn(frames[k], MESSAGE_MAXIMUM_LENGTH) && frames[k][4..] == jsons[k]
    {
      ServerProtocol.ToBytesIsFrame(jsons[k]);
    }
    assert Payloads(frames) == jsons;
    ReassemblerProof.DeliversEveryFrame(streamId, sourceId, frames, MESSAGE_MAXIMUM_LENGTH, count, cuts);
  }
}
