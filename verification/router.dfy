/** The router of the server (src/client.rs): for every stream, the clients
    subscribed to it with the channel that carries packets to each one; and
    the per-client stream task that writes those packets out. */
module Router {
  import opened Bytes
  import opened Wrappers

  /** A channel sender, known by an identity only. */
  type Sender = nat

  type Entries = seq<(nat, Sender)>

  type Table = map<nat, Entries>

  /** `ClientId::increment`: `wrapping_add(1)` on a `u32`. */
  function NextClientId(id: nat): (r: nat)
    requires id < 0x1_0000_0000
    ensures r < 0x1_0000_0000
    ensures r == 0 <==> id == 0xffff_ffff
    ensures r != 0 ==> r == id + 1
  {
    (id + 1) % 0x1_0000_0000
  }

  /** The reference for removal: the entries of other clients, in order. */
  function Without(entries: Entries, client: nat): (r: Entries)
    ensures |r| <= |entries|
    ensures forall k :: 0 <= k < |r| ==> r[k].0 != client
    ensures forall k :: 0 <= k < |entries| && entries[k].0 != client ==> entries[k] in r
    ensures forall e :: e in r ==> e in entries
  {
    if |entries| == 0 then []
    else if entries[|entries| - 1].0 == client then Without(entries[..|entries| - 1], client)
    else Without(entries[..|entries| - 1], client) + [entries[|entries| - 1]]
  }

  /** The compaction loop at the end of a stream task and of a connection:
      entries of `client` are counted, every other entry is swapped down past
      them, and as many entries as were counted are popped off the end. The
      result is exactly the stable filter, and `removed` the number of
      entries dropped. */
  method RemoveClient(entries: Entries, client: nat) returns (r: Entries, removed: nat)
    ensures r == Without(entries, client)
    ensures removed == |entries| - |r|
  {
    var work := entries;
    removed := 0;
    var index := 0;
    while index < |work|
      invariant |work| == |entries|
      invariant removed <= index <= |entries|
      invariant work[..index - removed] == Without(entries[..index], client)
      invariant forall k :: index - removed <= k < index ==> work[k].0 == client
      invariant work[index..] == entries[index..]
    {
      assert entries[..index + 1][..index] == entries[..index];
      assert work[index] == entries[index];
      if work[index].0 == client {
        removed := removed + 1;
      } else {
        var low := index - removed;
        var before := work;
        work := work[low := work[index]][index := work[low]];
        assert work[..low + 1] == Without(entries[..index], client) + [entries[index]];
        assert work[index + 1..] == before[index + 1..];
      }
      index := index + 1;
    }
    assert entries[..index] == entries;
    r := work[..|work| - removed];
  }

  /** The connection's cleanup: every stream's entries without the client,
      each list filtered as `RemoveClient` filters it. The streams
      themselves stay. */
  function Cleanup(table: Table, client: nat): (r: Table)
    ensures r.Keys == table.Keys
    ensures forall id :: id in r ==> !Listed(r[id], client)
    ensures forall id :: id in r ==>
      forall k :: 0 <= k < |table[id]| && table[id][k].0 != client ==> table[id][k] in r[id]
    ensures forall id, e :: id in r && e in r[id] ==> e in table[id]
  {
    map id | id in table :: Without(table[id], client)
  }

  predicate DistinctClients(entries: Entries)
  {
    forall j, k :: 0 <= j < k < |entries| ==> entries[j].0 != entries[k].0
  }

  /** No client is listed twice under one stream. */
  predicate Distinct(table: Table)
  {
    forall id :: id in table ==> DistinctClients(table[id])
  }

  predicate Listed(entries: Entries, client: nat)
  {
    exists k :: 0 <= k < |entries| && entries[k].0 == client
  }

  /** `StartStream`'s registration: the client is appended to a known
      stream's entries unless it is already there; the second component says
      whether a stream task is spawned. An unknown stream registers nothing. */
  function Register(table: Table, streamId: nat, client: nat, sender: Sender): (r: (Table, bool))
    ensures r.1 <==> streamId in table && !Listed(table[streamId], client)
    ensures r.1 ==> r.0 == table[streamId := table[streamId] + [(client, sender)]]
    ensures !r.1 ==> r.0 == table
  {
    if streamId in table && !Listed(table[streamId], client) then
      (table[streamId := table[streamId] + [(client, sender)]], true)
    else (table, false)
  }

  /** Registration keeps every stream free of duplicate clients. */
  lemma RegisterKeepsDistinct(table: Table, streamId: nat, client: nat, sender: Sender)
    requires Distinct(table)
    ensures Distinct(Register(table, streamId, client, sender).0)
  {
    var r: Table := Register(table, streamId, client, sender).0;
    if r != table {
      var e := r[streamId];
      forall j, k | 0 <= j < k < |e|
        ensures e[j].0 != e[k].0
      {
        assert e[j] == table[streamId][j];
        if k < |table[streamId]| {
          assert e[k] == table[streamId][k];
        }
      }
    }
  }

  /** Removing a client keeps the other entries free of duplicates. */
  lemma {:induction false} WithoutKeepsDistinct(entries: Entries, client: nat)
    requires DistinctClients(entries)
    ensures DistinctClients(Without(entries, client))
    ensures forall e :: e in Without(entries, client) ==> e in entries
    decreases |entries|
  {
    if |entries| > 0 {
      var init := entries[..|entries| - 1];
      WithoutKeepsDistinct(init, client);
      var last := entries[|entries| - 1];
      forall e | e in Without(init, client)
        ensures e.0 != last.0
      {
        var j :| 0 <= j < |init| && init[j] == e;
        assert init[j] == entries[j];
      }
      var w := Without(init, client);
      if last.0 != client {
        var r := w + [last];
        assert Without(entries, client) == r;
        forall j, k | 0 <= j < k < |r|
          ensures r[j].0 != r[k].0
        {
          assert r[j] == w[j] && w[j] in w;
          if k < |w| {
            assert r[k] == w[k];
          }
        }
      } else {
        assert Without(entries, client) == w;
      }
    }
  }

  /** After a connection's cleanup the client is listed nowhere, and no
      stream has gained a duplicate. */
  lemma CleanupForgetsClient(table: Table, client: nat)
    requires Distinct(table)
    ensures Distinct(Cleanup(table, client))
    ensures forall id :: id in Cleanup(table, client) ==> !Listed(Cleanup(table, client)[id], client)
  {
    forall id | id in table
      ensures DistinctClients(Without(table[id], client))
    {
      WithoutKeepsDistinct(table[id], client);
    }
  }

  /** What a stream task does with the packets its channel yields: the
      packets written out, and the packets pushed back to the stack. With
      `onlyIfDifferent`, a packet equal to the last one written is skipped.
      `accepted` is how many more writes the peer takes before a write fails
      (`None`: none fails); after a failure the sending task leaves the router and
      only drains the channel. */
  function Forward(packets: seq<seq<byte>>, onlyIfDifferent: bool, last: Option<seq<byte>>, accepted: Option<nat>): (r: (seq<seq<byte>>, seq<seq<byte>>))
    ensures r.1 == packets
    ensures |r.0| <= |packets|
    ensures !onlyIfDifferent && accepted.None? ==> r.0 == packets
    ensures !onlyIfDifferent && accepted.Some? ==>
      r.0 == packets[..if accepted.value < |packets| then accepted.value else |packets|]
    decreases |packets|
  {
    if |packets| == 0 then ([], [])
    else
      var packet := packets[0];
      var write := !onlyIfDifferent || last != Some(packet);
      var last' := if onlyIfDifferent then Some(packet) else last;
      if !write then
        var rest := Forward(packets[1..], onlyIfDifferent, last', accepted);
        (rest.0, [packet] + rest.1)
      else if accepted == Some(0) then ([], packets)
      else
        var accepted' := if accepted.Some? then Some(accepted.value - 1) else None;
        var rest := Forward(packets[1..], onlyIfDifferent, last', accepted');
        ([packet] + rest.0, [packet] + rest.1)
  }

  /** The reference for `onlyIfDifferent`: the packets that differ from the
      one received just before them (the first one is compared with `last`). */
  function Changes(packets: seq<seq<byte>>, last: Option<seq<byte>>): seq<seq<byte>>
    decreases |packets|
  {
    if |packets| == 0 then []
    else (if last == Some(packets[0]) then [] else [packets[0]]) + Changes(packets[1..], Some(packets[0]))
  }

  /** The filter compares with the last packet written, which is always the
      last packet received: so a packet is written exactly when it differs
      from its predecessor. */
  lemma {:induction false} ForwardWritesChanges(packets: seq<seq<byte>>, last: Option<seq<byte>>)
    ensures Forward(packets, true, last, None).0 == Changes(packets, last)
    decreases |packets|
  {
    if |packets| > 0 {
      ForwardWritesChanges(packets[1..], Some(packets[0]));
    }
  }

  /** A repeated packet is written once. */
  lemma RepeatedPacketWrittenOnce(p: seq<byte>)
    ensures Forward([p, p, p], true, None, None).0 == [p]
  {
    assert [p, p, p][1..] == [p, p];
    assert [p, p][1..] == [p];
    assert [p][1..] == [];
    assert Forward([p], true, Some(p), None).0 == [];
    assert Forward([p, p], true, Some(p), None).0 == [];
  }
}
