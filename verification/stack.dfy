/** The server's buffer stack (src/stack.rs): a LIFO pool of packet buffers
    that frees the memory of buffers left unused for a while. Every time
    window, a slot of `samples` is set to the stack's length; pops lower the
    current slot to the new length; `ShrinkUnused` clears the buffers below
    the minimum over all slots, since those were never popped during the
    sampled windows. Wall-clock time is modelled by the number of whole
    windows elapsed before an operation. */
module BufferStack {
  import opened Bytes
  import opened Wrappers

  datatype Stack = Stack(inner: seq<seq<byte>>, shrunk: nat, samples: seq<nat>, index: nat)

  /** What every operation preserves. The last conjunct is what the bookkeeping
      means: every buffer below `shrunk` has been cleared and not handed out
      since. */
  predicate Valid(s: Stack)
  {
    && |s.samples| > 0
    && s.index < |s.samples|
    && s.shrunk <= |s.inner|
    && s.samples[s.index] <= |s.inner|
    && (forall i :: 0 <= i < s.shrunk ==> s.inner[i] == [])
  }

  /** `Stack::new`: `length` empty buffers, all of them counted as shrunk, and
      every sample at `length`. */
  function New(length: nat, minimumSamples: nat): (r: Stack)
    ensures |r.inner| == length && r.shrunk == length && r.index == 0
    ensures forall i :: 0 <= i < length ==> r.inner[i] == []
    ensures |r.samples| == minimumSamples
    ensures forall j :: 0 <= j < minimumSamples ==> r.samples[j] == length
    ensures Valid(r) <==> minimumSamples > 0
  {
    Stack(seq(length, _ => []), length, seq(minimumSamples, _ => length), 0)
  }

  /** One elapsed window of `update_samples`: the next slot (cyclically)
      records the current length. Since the index is below the number of
      slots, `(index + 1) % len` is written as a wrap to 0. */
  function Advance(s: Stack): (r: Stack)
    requires Valid(s)
    ensures Valid(r)
  {
    var next := if s.index + 1 == |s.samples| then 0 else s.index + 1;
    s.(index := next, samples := s.samples[next := |s.inner|])
  }

  /** The slot `d` steps before slot `i` in a ring of `n` slots. */
  function Back(i: nat, d: nat, n: nat): (r: nat)
    requires i < n && d < n
    ensures r < n
    ensures d == 0 <==> r == i
  {
    if d <= i then i - d else n + i - d
  }

  /** `update_samples` after `windows` whole windows. The stack itself is not
      touched, and the last `min(windows, |samples|)` slots written, counting
      back from the current one, all hold the current length. */
  function UpdateSamples(s: Stack, windows: nat): (r: Stack)
    requires Valid(s)
    ensures Valid(r)
    ensures r.inner == s.inner && r.shrunk == s.shrunk && |r.samples| == |s.samples|
    ensures forall d :: 0 <= d < windows && d < |s.samples| ==>
      r.samples[Back(r.index, d, |s.samples|)] == |s.inner|
    ensures windows == 0 ==> r == s
    decreases windows
  {
    if windows == 0 then s
    else
      var p := UpdateSamples(s, windows - 1);
      var r := Advance(p);
      var n := |s.samples|;
      forall d | 1 <= d < windows && d < n
        ensures r.samples[Back(r.index, d, n)] == |s.inner|
      {
        assert Back(r.index, d, n) == Back(p.index, d - 1, n);
      }
      r
  }

  /** Once a full cycle of windows has passed, every sample is the current
      length, so nothing is considered unused any more. */
  lemma FullCycleForgets(s: Stack, windows: nat)
    requires Valid(s) && windows >= |s.samples|
    ensures forall j :: 0 <= j < |s.samples| ==> UpdateSamples(s, windows).samples[j] == |s.inner|
  {
    var r := UpdateSamples(s, windows);
    var n := |s.samples|;
    forall j | 0 <= j < n
      ensures r.samples[j] == |s.inner|
    {
      var d := if j <= r.index then r.index - j else r.index + n - j;
      assert Back(r.index, d, n) == j;
    }
  }

  /** `push`. */
  function Push(s: Stack, buffer: seq<byte>, windows: nat): (r: Stack)
    requires Valid(s)
    ensures Valid(r)
    ensures r.inner == s.inner + [buffer]
    ensures r.shrunk == s.shrunk
  {
    var u := UpdateSamples(s, windows);
    u.(inner := u.inner + [buffer])
  }

  /** `pop`: the top buffer, if any. A successful pop lowers `shrunk` and the
      current sample to the new length; an empty stack is left as the
      windows left it. */
  function Pop(s: Stack, windows: nat): (r: (Stack, Option<seq<byte>>))
    requires Valid(s)
    ensures Valid(r.0)
    ensures |s.inner| == 0 <==> r.1.None?
    ensures r.1.None? ==> r.0 == UpdateSamples(s, windows)
    ensures r.0.index == UpdateSamples(s, windows).index
    ensures r.1.Some? ==>
      && r.1.value == s.inner[|s.inner| - 1]
      && r.0.inner == s.inner[..|s.inner| - 1]
      && r.0.shrunk == Min(s.shrunk, |r.0.inner|)
      && r.0.samples[r.0.index] == Min(UpdateSamples(s, windows).samples[r.0.index], |r.0.inner|)
  {
    var u := UpdateSamples(s, windows);
    if |u.inner| == 0 then (u, None)
    else
      var top := u.inner[|u.inner| - 1];
      var rest := u.inner[..|u.inner| - 1];
      (u.(inner := rest,
          shrunk := Min(u.shrunk, |rest|),
          samples := u.samples[u.index := Min(u.samples[u.index], |rest|)]),
       Some(top))
  }

  function Min(a: nat, b: nat): (r: nat)
    ensures r <= a && r <= b && (r == a || r == b)
  {
    if a <= b then a else b
  }

  /** Push then pop gives the same buffer back and the same buffers below it. */
  lemma LastInFirstOut(s: Stack, buffer: seq<byte>, w1: nat, w2: nat)
    requires Valid(s)
    ensures var r := Pop(Push(s, buffer, w1), w2);
      r.1 == Some(buffer) && r.0.inner == s.inner
  {
    var p := Push(s, buffer, w1);
    assert p.inner[..|p.inner| - 1] == s.inner;
  }

  /** The smallest sample, which is what `.iter().min()` finds. */
  function SeqMin(xs: seq<nat>): (r: nat)
    requires |xs| > 0
    ensures exists i :: 0 <= i < |xs| && xs[i] == r
    ensures forall i :: 0 <= i < |xs| ==> r <= xs[i]
  {
    if |xs| == 1 then xs[0]
    else
      var m := SeqMin(xs[1..]);
      assert forall i :: 1 <= i < |xs| ==> xs[i] == xs[1..][i - 1];
      if xs[0] <= m then xs[0] else m
  }

  /** `shrink_unused`: when the running minimum exceeds `shrunk`, the buffers
      in `[shrunk, minimum)` are cleared and `shrunk` moves up to the minimum.
      The number of buffers never changes, `shrunk` never decreases, and no
      buffer outside that range is touched. */
  function ShrinkUnused(s: Stack, windows: nat): (r: Stack)
    requires Valid(s)
    ensures Valid(r)
    ensures |r.inner| == |s.inner|
    ensures r.shrunk >= s.shrunk
    ensures r.samples == UpdateSamples(s, windows).samples
    ensures var m := SeqMin(r.samples);
      && r.shrunk == (if m > s.shrunk then m else s.shrunk)
      && (forall i :: 0 <= i < |r.inner| ==>
            r.inner[i] == (if s.shrunk <= i < m then [] else s.inner[i]))
  {
    var u := UpdateSamples(s, windows);
    var minimum := SeqMin(u.samples);
    assert minimum <= u.samples[u.index];
    if minimum > u.shrunk then
      u.(inner := seq(|u.inner|, i requires 0 <= i < |u.inner| =>
                        if u.shrunk <= i < minimum then [] else u.inner[i]),
         shrunk := minimum)
    else u
  }
}
