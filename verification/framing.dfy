/** Length-prefixed frames: a 4-byte little-endian total length (which counts
    the prefix itself) followed by the payload. Every stream of the system
    carries frames of this shape, in both directions. */
module Framing {
  import opened Bytes

  /** A well-formed frame: its prefix announces exactly its own length. */
  predicate IsFrame(f: seq<byte>)
  {
    4 <= |f| < TWO_32 && ReadU32(f, 0) == |f|
  }

  /** A well-formed frame that also fits in a receive buffer of `capacity` bytes. */
  predicate FitsIn(f: seq<byte>, capacity: nat)
  {
    IsFrame(f) && |f| <= capacity
  }

  predicate AllFitIn(frames: seq<seq<byte>>, capacity: nat)
  {
    forall i :: 0 <= i < |frames| ==> FitsIn(frames[i], capacity)
  }

  /** The byte stream a peer produces by writing `frames` back to back. */
  function Concat(frames: seq<seq<byte>>): seq<byte>
  {
    if |frames| == 0 then [] else frames[0] + Concat(frames[1..])
  }

  /** The payloads carried by `frames`, prefixes stripped. */
  function Payloads(frames: seq<seq<byte>>): (r: seq<seq<byte>>)
    requires forall i :: 0 <= i < |frames| ==> 4 <= |frames[i]|
    ensures |r| == |frames|
    ensures forall i :: 0 <= i < |r| ==> r[i] == frames[i][4..]
  {
    if |frames| == 0 then [] else [frames[0][4..]] + Payloads(frames[1..])
  }

  /** Prefixes `payload` with its total length: the encoder shared by
      `sendMessageToServer` (ui/src/protocol.svelte.ts), the ping message of
      the transport worker and `ServerMessage::to_bytes` (src/protocol.rs). */
  function Prefixed(payload: seq<byte>): (r: seq<byte>)
    requires |payload| + 4 < TWO_32
  {
    LeU32(|payload| + 4) + payload
  }

  /** The encoder produces a well-formed frame whose payload is the input. */
  lemma PrefixedIsFrame(payload: seq<byte>)
    requires |payload| + 4 < TWO_32
    ensures IsFrame(Prefixed(payload))
    ensures |Prefixed(payload)| == |payload| + 4
    ensures Prefixed(payload)[4..] == payload
  {
    var r := Prefixed(payload);
    assert r[..4] == LeU32(|payload| + 4);
    ReadU32Local(r, LeU32(|payload| + 4), 0);
    ReadLeU32(|payload| + 4);
  }

  /** The stream of a non-empty sequence of frames is at least as long as its
      first frame. */
  lemma ConcatFirst(frames: seq<seq<byte>>)
    ensures |frames| > 0 ==> |Concat(frames)| >= |frames[0]|
  {
  }

  /** A non-empty stream of frames that each fit in `capacity` bytes is at
      least as long as its first frame, which is at least four bytes. */
  lemma FirstFrame(frames: seq<seq<byte>>, capacity: nat)
    requires AllFitIn(frames, capacity)
    ensures |frames| > 0 ==> 4 <= |frames[0]| <= |Concat(frames)| && |frames[0]| <= capacity
  {
    ConcatFirst(frames);
    assert |frames| > 0 ==> FitsIn(frames[0], capacity);
  }

  /** How a network splits a byte stream into reads. The size of the next read: the next cut, clamped to what the read asked
      for and what the peer still has to send; without cuts, everything. */
  function ChunkSize(request: nat, available: nat, cuts: seq<nat>): (k: nat)
    requires 0 < request && 0 < available
    ensures 1 <= k <= request && k <= available
  {
    var most := if request < available then request else available;
    if |cuts| == 0 || cuts[0] > most then most
    else if cuts[0] == 0 then 1
    else cuts[0]
  }

  function Later(cuts: seq<nat>): seq<nat>
  {
    if |cuts| == 0 then [] else cuts[1..]
  }

  /** Once four bytes are pending, the prefix read from the buffer is the
      length of the first frame still to deliver. */
  lemma HeaderOfPending(buffer: seq<byte>, offset: nat, rest: seq<byte>, frames: seq<seq<byte>>, capacity: nat)
    requires 4 <= offset <= |buffer|
    requires buffer[..offset] + rest == Concat(frames)
    requires AllFitIn(frames, capacity)
    ensures |frames| > 0 && ReadU32(buffer, 0) == |frames[0]|
  {
    assert |Concat(frames)| >= 4;
    assert |frames| > 0;
    var all := Concat(frames);
    assert all == frames[0] + Concat(frames[1..]);
    assert FitsIn(frames[0], capacity);
    assert buffer[0..4] == all[0..4] == frames[0][0..4];
    ReadU32Local(buffer, frames[0], 0);
  }

  /** A complete first frame splits off the front of the pending bytes. */
  lemma SplitPending(buffer: seq<byte>, offset: nat, rest: seq<byte>, frames: seq<seq<byte>>)
    requires offset <= |buffer|
    requires |frames| > 0 && |frames[0]| <= offset
    requires buffer[..offset] + rest == Concat(frames)
    ensures buffer[..|frames[0]|] == frames[0]
    ensures buffer[|frames[0]|..offset] + rest == Concat(frames[1..])
  {
    var n := |frames[0]|;
    var all := Concat(frames);
    assert all == frames[0] + Concat(frames[1..]);
    assert buffer[..n] == all[..n];
    assert all[n..] == Concat(frames[1..]);
    assert all[n..] == buffer[n..offset] + rest;
  }
}
