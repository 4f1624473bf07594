/** The per-stream buffer pool of the browser transport worker: a queue of
    free receive buffers plus a single waiter slot (`buffers` and
    `bufferPromiseResolveReject` of `UnidirectionalStream`). */
module BufferPool {
  import opened Bytes
  import opened Wrappers

  datatype Pool = Pool(free: seq<seq<byte>>, waiting: bool)

  /** A waiter is only ever registered while the queue is empty. */
  predicate Valid(p: Pool)
  {
    p.waiting ==> p.free == []
  }

  /** A fresh pool of `count` zero-filled buffers of `size` bytes. */
  function Fill(count: nat, size: nat): (p: Pool)
    ensures Valid(p) && !p.waiting && |p.free| == count
    ensures forall i :: 0 <= i < count ==> |p.free[i]| == size
  {
    if count == 0 then Pool([], false)
    else
      var rest := Fill(count - 1, size);
      Pool([seq(size, _ => 0)] + rest.free, false)
  }

  /** `nextBuffer`: the oldest free buffer, or, when there is none, the waiter
      slot is armed and the caller suspends (`None`). */
  function Take(p: Pool): (r: (Pool, Option<seq<byte>>))
    requires Valid(p) && !p.waiting
    ensures Valid(r.0)
    ensures r.1.Some? <==> |p.free| > 0
    ensures r.1.Some? ==> r.1.value == p.free[0] && r.0 == Pool(p.free[1..], false)
    ensures r.1.None? ==> r.0 == Pool([], true)
  {
    if |p.free| > 0 then (Pool(p.free[1..], false), Some(p.free[0]))
    else (Pool([], true), None)
  }

  /** A consumer hands a buffer back: it resolves the waiter if one is
      registered (the buffer is returned to the caller to resume it), and is
      appended to the queue otherwise. */
  function Give(p: Pool, b: seq<byte>): (r: (Pool, Option<seq<byte>>))
    requires Valid(p)
    ensures Valid(r.0) && !r.0.waiting
    ensures r.1.Some? <==> p.waiting
    ensures r.1.Some? ==> r.1.value == b && r.0.free == p.free
    ensures r.1.None? ==> r.0.free == p.free + [b]
  {
    if p.waiting then (Pool(p.free, false), Some(b)) else (Pool(p.free + [b], false), None)
  }

  /** No buffer is created or lost: what `Take` hands out plus what stays
      queued is what was queued. */
  lemma TakeConserves(p: Pool)
    requires Valid(p) && !p.waiting
    ensures var r := Take(p);
      multiset(r.0.free) + (if r.1.Some? then multiset{r.1.value} else multiset{}) == multiset(p.free)
  {
    var r := Take(p);
    if r.1.Some? {
      assert p.free == [p.free[0]] + p.free[1..];
    }
  }
}
