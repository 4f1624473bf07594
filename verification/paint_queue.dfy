/** The frame queue both painters keep (`buffersAndTimes` in
    ui/src/painter.ts and ui/src/eventPainter.ts): decoded frames wait here
    for the next animation frame, at most four at a time, and every frame
    that leaves the queue is returned to the decode worker. Entries are
    opaque; a painter stores a buffer with its times. */
module PaintQueue {
  import opened Wrappers

  const QUEUE_CAPACITY: nat := 4

  /** The newest `n` entries of `s` (all of them when there are fewer). */
  function Newest<T>(s: seq<T>, n: nat): (r: seq<T>)
    ensures |r| == if |s| < n then |s| else n
    ensures r == s[|s| - |r|..]
  {
    if |s| < n then s else s[|s| - n..]
  }

  /** `handleBuffer`: the frame is appended, then frames are shifted off
      the front while more than four wait, each returned to the decode
      worker. The queue keeps the newest four, and the returned frames are
      the older ones, oldest first: nothing is lost or duplicated. */
  method HandleBuffer<T>(queue: seq<T>, entry: T) returns (after: seq<T>, returned: seq<T>)
    ensures after == Newest(queue + [entry], QUEUE_CAPACITY)
    ensures returned + after == queue + [entry]
  {
    after := queue + [entry];
    returned := [];
    while |after| > QUEUE_CAPACITY
      invariant returned + after == queue + [entry]
      invariant returned != [] ==> |after| >= QUEUE_CAPACITY
      decreases |after|
    {
      returned := returned + [after[0]];
      after := after[1..];
    }
    NewestOfSplit(returned, after, queue + [entry]);
  }

  /** A sequence cut into an older part and at most four newer ones, with
      exactly four when anything older was cut off: the newer part is the
      newest four. */
  lemma NewestOfSplit<T>(older: seq<T>, newer: seq<T>, s: seq<T>)
    requires older + newer == s && |newer| <= QUEUE_CAPACITY
    requires older != [] ==> |newer| == QUEUE_CAPACITY
    ensures newer == Newest(s, QUEUE_CAPACITY)
  {
    assert newer == s[|older|..];
  }

  /** The number of frames a tick takes: all of them on the first tick that
      finds any (no earlier paint), otherwise as many as the elapsed time
      asks for (`requested`, the rounded frame count, which can be zero or
      negative), but no more than wait. */
  function FrameCount(waiting: nat, painted: bool, requested: int): (n: nat)
    ensures n <= waiting
    ensures !painted ==> n == waiting
    ensures painted && 0 <= requested <= waiting ==> n == requested
    ensures painted && requested > waiting ==> n == waiting
    ensures painted && requested < 0 ==> n == 0
  {
    if !painted then waiting
    else if requested < 0 then 0
    else if requested < waiting then requested
    else waiting
  }

  /** A tick's effect on the queue. `painted` says whether a previous tick
      painted (`previousTimestamp != null`). */
  datatype TickResult<T> = TickResult(after: seq<T>, returned: seq<T>, shown: Option<T>, painted: bool)

  /** `tick`: `FrameCount` frames are shifted off the front, every one is
      returned to the decode worker, and only the last is painted, on every
      attached canvas. A tick that takes no frame changes nothing. */
  method Tick<T>(queue: seq<T>, painted: bool, requested: int) returns (r: TickResult<T>)
    ensures |r.returned| == FrameCount(|queue|, painted, requested)
    ensures r.returned + r.after == queue
    ensures r.returned == [] ==> r.shown.None? && r.painted == painted
    ensures r.returned != [] ==> r.shown == Some(r.returned[|r.returned| - 1]) && r.painted
  {
    var frameCount := FrameCount(|queue|, painted, requested);
    var after := queue;
    var returned := [];
    var shown := None;
    if frameCount > 0 {
      var index := 0;
      while index < frameCount
        invariant 0 <= index <= frameCount
        invariant |returned| == index
        invariant returned + after == queue
        invariant shown == if index == frameCount then Some(returned[index - 1]) else None
      {
        var entry := after[0];
        if index == frameCount - 1 {
          shown := Some(entry);
        }
        returned := returned + [entry];
        after := after[1..];
        index := index + 1;
      }
      r := TickResult(after, returned, shown, true);
    } else {
      r := TickResult(after, returned, shown, painted);
    }
  }
}
