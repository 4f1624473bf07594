/** The EVT 3.0 decoder of the page's extension (ui/extension/src/lib.rs):
    a renderer keeps the decoding state of one camera and a frame of
    per-pixel stamps; `render` decodes the 16-bit words of one packet and
    then rebases the time origin. Pixel values are `f32` in the source; here
    a stamp keeps the integer it is converted from, and the rebasing of
    stamps is a parameter. */
module Evt3 {
  import opened Bytes
  import opened Wrappers

  /** `MAXIMUM_DELTA`, in microseconds. */
  const MAXIMUM_DELTA: nat := 3_600_000_000

  /** The first word `render` reads: word 34, the byte 68. */
  const FIRST_WORD: nat := 34

  /** A pixel: never written (the sentinel `2 * MAXIMUM_DELTA`), or the time
      since the origin of its last event with its polarity (negated when off
      in the source). */
  datatype Pixel = Idle | Stamp(delta: nat, on: bool)

  datatype Renderer = Renderer(
    width: nat, height: nat, pixels: seq<Pixel>, bufferLength: nat,
    t: nat, overflows: nat, previousMsbT: nat, previousLsbT: nat,
    x: nat, y: nat, on: bool, offsetT: nat)

  /** Field widths of the source (`u16` sizes and coordinates, 12-bit time
      parts, `u32` overflows, `u64` times), the frame size, and the origin
      never past the current time. */
  predicate Valid(r: Renderer)
  {
    && r.width < TWO_16 && r.height < TWO_16
    && |r.pixels| == r.width * r.height
    && r.x < TWO_16 && r.y < TWO_16
    && r.previousMsbT < 4096 && r.previousLsbT < 4096
    && r.overflows < TWO_32
    && r.t < TWO_64
    && r.offsetT <= r.t
  }

  /** `Renderer::new`: every pixel idle, all time state zero. */
  function New(width: nat, height: nat, bufferLength: nat): (r: Renderer)
    requires width < TWO_16 && height < TWO_16
    ensures Valid(r)
    ensures |r.pixels| == width * height && forall k :: 0 <= k < |r.pixels| ==> r.pixels[k] == Idle
    ensures r.bufferLength == bufferLength
    ensures r.t == 0 && r.offsetT == 0 && r.overflows == 0 && r.previousMsbT == 0 && r.previousLsbT == 0
    ensures r.x == 0 && r.y == 0 && !r.on
  {
    Renderer(width, height, seq(width * height, _ => Idle), bufferLength, 0, 0, 0, 0, 0, 0, false, 0)
  }

  /** `lsb | msb << 12 | overflows << 24`: the three parts occupy disjoint
      bits, so the `|` is a sum. */
  function TimeOf(lsb: nat, msb: nat, overflows: nat): (t: nat)
    requires lsb < 4096 && msb < 4096 && overflows < TWO_32
    ensures t < TWO_64
    ensures t % 4096 == lsb && (t / 4096) % 4096 == msb && t / TWO_24 == overflows
  {
    lsb + 4096 * msb + TWO_24 * overflows
  }

  /** `1 << n` for the small shifts of the vector masks. */
  function Pow2(n: nat): (r: nat)
    ensures r >= 1
  {
    if n == 0 then 1 else 2 * Pow2(n - 1)
  }

  function Min(a: nat, b: nat): nat
  {
    if a < b then a else b
  }

  /** The index of the pixel at column `x` and row `y`, rows stored one
      after another. */
  function Cell(x: nat, y: nat, width: nat): nat
  {
    x + y * width
  }

  lemma PixelInFrame(x: nat, y: nat, width: nat, height: nat)
    requires x < width && y < height
    ensures Cell(x, y, width) < width * height
  {
    assert y * width <= (height - 1) * width by {
      assert (height - 1) * width - y * width == (height - 1 - y) * width;
    }
    assert (height - 1) * width == height * width - width;
  }

  /** The low `n` bits of `word`, as `word & ((1 << n) - 1)`. */
  function LowBits(word: nat, n: nat): nat
  {
    word % Pow2(n)
  }

  /** The stamp an event at the current time gets. */
  function StampNow(r: Renderer): Pixel
    requires r.offsetT <= r.t
  {
    Stamp(r.t - r.offsetT, r.on)
  }

  /** Adopts a reconstructed time only when it does not go back. */
  function Advance(r: Renderer): (s: Renderer)
    requires Valid(r)
    ensures Valid(s) && s.t >= r.t
    ensures s.t == (if TimeOf(r.previousLsbT, r.previousMsbT, r.overflows) >= r.t then TimeOf(r.previousLsbT, r.previousMsbT, r.overflows) else r.t)
    ensures s == r.(t := s.t)
  {
    var t := TimeOf(r.previousLsbT, r.previousMsbT, r.overflows);
    if t >= r.t then r.(t := t) else r
  }

  /** A vector event of `bits` bits (12 or 8): when the cursor is inside the
      frame, the pixel at the cursor is stamped if any bit of the mask
      within the remaining width is set, the same pixel for every bit, and
      the cursor moves `bits` columns on, wrapping as a `u16`. Outside the
      frame nothing happens. */
  function Vector(r: Renderer, word: nat, bits: nat): (s: Renderer)
    requires Valid(r) && word < TWO_16
    ensures Valid(s)
    ensures !(r.x < r.width && r.y < r.height) ==> s == r
    ensures r.x < r.width && r.y < r.height ==>
      && s == r.(pixels := s.pixels, x := (r.x + bits) % TWO_16)
      && (forall k :: 0 <= k < |r.pixels| && k != Cell(r.x, r.y, r.width) ==> s.pixels[k] == r.pixels[k])
      && (LowBits(word, Min(bits, r.width - r.x)) == 0 ==> s.pixels == r.pixels)
  {
    if r.x < r.width && r.y < r.height then
      var masked := LowBits(word, Min(bits, r.width - r.x));
      PixelInFrame(r.x, r.y, r.width, r.height);
      var pixels := if masked != 0 then r.pixels[Cell(r.x, r.y, r.width) := StampNow(r)] else r.pixels;
      r.(pixels := pixels, x := (r.x + bits) % TWO_16)
    else r
  }

  /** An address-X event (`stamp`, kind 2) or a vector base (kind 3): the
      cursor takes the low 11 bits of the word and the polarity bit 11; an
      address-X event then stamps the pixel under the cursor when it is
      inside the frame. */
  function Address(r: Renderer, word: nat, stamp: bool): (s: Renderer)
    requires Valid(r) && word < TWO_16
    ensures Valid(s)
    ensures s.x == word % 2048 && (s.on <==> word % 4096 >= 2048)
    ensures s == r.(x := s.x, on := s.on, pixels := s.pixels)
    ensures !stamp || !(s.x < r.width && r.y < r.height) ==> s.pixels == r.pixels
    ensures forall k :: 0 <= k < |r.pixels| && k != Cell(s.x, r.y, r.width) ==> s.pixels[k] == r.pixels[k]
  {
    var s := r.(x := word % 2048, on := (word / 2048) % 2 == 1);
    if stamp && s.x < s.width && s.y < s.height then
      PixelInFrame(s.x, s.y, s.width, s.height);
      s.(pixels := s.pixels[Cell(s.x, s.y, s.width) := StampNow(s)])
    else s
  }

  /** One EVT 3.0 word, dispatched on its top four bits. */
  function Step(r: Renderer, word: nat): (s: Renderer)
    requires Valid(r) && word < TWO_16
    ensures Valid(s)
    ensures s.t >= r.t && s.offsetT == r.offsetT
    ensures s.width == r.width && s.height == r.height && s.bufferLength == r.bufferLength
    ensures word / 4096 == 0 ==> s == r.(y := word % 2048)
    ensures word / 4096 == 2 || word / 4096 == 3 ==>
      && s.x == word % 2048 && s.y == r.y && s.t == r.t
      && (s.on <==> word % 4096 >= 2048)
    ensures word / 4096 == 3 ==> s.pixels == r.pixels
    ensures word / 4096 in {1, 7, 9, 10, 11, 12, 13, 14, 15} ==> s == r
  {
    var kind := word / 4096;
    if kind == 0 then r.(y := word % 2048)
    else if kind == 2 then Address(r, word, true)
    else if kind == 3 then Address(r, word, false)
    else if kind == 4 then Vector(r, word, 12)
    else if kind == 5 then Vector(r, word, 8)
    else if kind == 6 then
      var lsb := word % 4096;
      if lsb != r.previousLsbT then Advance(r.(previousLsbT := lsb)) else r
    else if kind == 8 then
      var msb := word % 4096;
      if msb == r.previousMsbT then r
      else
        var s :=
          if msb > r.previousMsbT then
            (if msb - r.previousMsbT < 2048 then r.(previousLsbT := 0, previousMsbT := msb) else r)
          else if r.previousMsbT - msb > 2048 then
            r.(overflows := (r.overflows + 1) % TWO_32, previousLsbT := 0, previousMsbT := msb)
          else r;
        Advance(s)
    else r
  }

  /** The decoder's high part (overflows, then time high) equals `high`,
      the camera's time counter without its 12 low bits. */
  predicate Tracks(r: Renderer, high: nat)
  {
    r.overflows * 4096 + r.previousMsbT == high
  }

  /** Time-high words follow the camera's counter: when its high part moves
      forward by less than 2^11, the next time-high word brings the
      decoder's high part to the same value, whether or not the 12-bit field
      wrapped, and clears time low. */
  lemma TimeHighFollowsCounter(r: Renderer, high: nat, high': nat)
    requires Valid(r) && Tracks(r, high)
    requires high < high' < high + 2048
    requires high' / 4096 < TWO_32 - 1
    ensures Tracks(Step(r, 0x8000 + high' % 4096), high')
    ensures Step(r, 0x8000 + high' % 4096).previousLsbT == 0
  {
    var msb := high' % 4096;
    var q' := high' / 4096;
    assert high' == q' * 4096 + msb;
    if q' == r.overflows {
      TimeHighForward(r, msb);
    } else {
      assert q' == r.overflows + 1;
      TimeHighWraps(r, msb);
    }
  }

  /** A time-high word a little ahead of the last one is adopted. */
  lemma TimeHighForward(r: Renderer, msb: nat)
    requires Valid(r) && r.previousMsbT < msb < 4096 && msb - r.previousMsbT < 2048
    ensures Step(r, 0x8000 + msb) == Advance(r.(previousLsbT := 0, previousMsbT := msb))
  {
    assert (0x8000 + msb) / 4096 == 8 && (0x8000 + msb) % 4096 == msb;
  }

  /** A time-high word far behind the last one is the 12-bit field wrapping:
      it is adopted and the overflow count goes up. */
  lemma TimeHighWraps(r: Renderer, msb: nat)
    requires Valid(r) && msb < r.previousMsbT && r.previousMsbT - msb > 2048 && r.overflows + 1 < TWO_32
    ensures Step(r, 0x8000 + msb) == Advance(r.(overflows := r.overflows + 1, previousLsbT := 0, previousMsbT := msb))
  {
    assert (0x8000 + msb) / 4096 == 8 && (0x8000 + msb) % 4096 == msb;
  }

  /** A time-high word that jumps forward by 2^11 or more, or back by 2^11
      or less, is not adopted: time high, time low and the overflow count stay
      as they were. */
  lemma TimeHighIgnoresOtherJumps(r: Renderer, msb: nat)
    requires Valid(r) && msb < 4096
    requires (msb > r.previousMsbT && msb - r.previousMsbT >= 2048) || (msb < r.previousMsbT && r.previousMsbT - msb <= 2048)
    ensures var s := Step(r, 0x8000 + msb);
      s.previousMsbT == r.previousMsbT && s.previousLsbT == r.previousLsbT && s.overflows == r.overflows
  {
    assert (0x8000 + msb) / 4096 == 8 && (0x8000 + msb) % 4096 == msb;
  }

  /** Time-low words complete the reconstruction: once the high part
      follows the counter, the time-low word of the counter makes the
      decoder's time the counter's time, unless that would go back. */
  lemma TimeLowCompletesTime(r: Renderer, time: nat)
    requires Valid(r) && Tracks(r, time / 4096) && time % 4096 != r.previousLsbT
    ensures var s := Step(r, 0x6000 + time % 4096);
      s.t == (if time >= r.t then time else r.t)
  {
    var word := 0x6000 + time % 4096;
    assert word / 4096 == 6 && word % 4096 == time % 4096;
    assert TimeOf(time % 4096, r.previousMsbT, r.overflows) == time;
  }

  /** A 12-bit vector event at a cursor inside the frame stamps one pixel,
      the cursor's, even when several bits are set: the pixels to its right
      are left as they were. */
  lemma VectorStampsOnePixel(r: Renderer, word: nat)
    requires Valid(r) && 0x4000 <= word < 0x5000
    requires r.x < r.width && r.y < r.height
    ensures var s := Step(r, word);
      forall k :: 0 <= k < |r.pixels| && k != Cell(r.x, r.y, r.width) ==> s.pixels[k] == r.pixels[k]
    ensures Cell(r.x, r.y, r.width) < |r.pixels|
    ensures LowBits(word, Min(12, r.width - r.x)) != 0 ==> Step(r, word).pixels[Cell(r.x, r.y, r.width)] == StampNow(r)
    ensures LowBits(word, Min(12, r.width - r.x)) == 0 ==> Step(r, word).pixels == r.pixels
    ensures Step(r, word).x == (r.x + 12) % TWO_16
  {
    PixelInFrame(r.x, r.y, r.width, r.height);
  }

  /** An address-X event (kind 2) sets the cursor and the polarity and, when
      the new cursor is inside the frame, stamps exactly the pixel under it
      with the current time; outside the frame no pixel changes. */
  lemma AddressStampsOnePixel(r: Renderer, word: nat)
    requires Valid(r) && 0x2000 <= word < 0x3000
    ensures var s := Step(r, word);
      var x := word % 2048;
      && (x < r.width && r.y < r.height ==>
            && Cell(x, r.y, r.width) < |r.pixels|
            && s.pixels[Cell(x, r.y, r.width)] == Stamp(r.t - r.offsetT, word % 4096 >= 2048)
            && forall k :: 0 <= k < |r.pixels| && k != Cell(x, r.y, r.width) ==> s.pixels[k] == r.pixels[k])
      && (!(x < r.width && r.y < r.height) ==> s.pixels == r.pixels)
  {
    assert word / 4096 == 2;
    var s := Step(r, word);
    var a := Address(r, word, true);
    assert s == a;
    var x := word % 2048;
    if x < r.width && r.y < r.height {
      PixelInFrame(x, r.y, r.width, r.height);
      var t := r.(x := x, on := (word / 2048) % 2 == 1);
      assert a == t.(pixels := t.pixels[Cell(x, r.y, r.width) := StampNow(t)]);
    }
  }

  /** Whatever the word, pixels are written only inside the frame: a word
      that changes a pixel had its cursor (the new one for an address-X
      event) at a column below the width and a row below the height, and
      changes no other pixel. */
  lemma StepWritesOnlyInFrame(r: Renderer, word: nat)
    requires Valid(r) && word < TWO_16
    ensures var s := Step(r, word);
      var x := if word / 4096 == 2 then word % 2048 else r.x;
      && (s.pixels != r.pixels ==> x < r.width && r.y < r.height)
      && forall k :: 0 <= k < |r.pixels| && k != Cell(x, r.y, r.width) ==> s.pixels[k] == r.pixels[k]
  {
  }

  /** Decodes the words `from` to `to` of the buffer. */
  function Decode(r: Renderer, buffer: seq<byte>, from: nat, to: nat): (s: Renderer)
    requires Valid(r) && 2 * to <= |buffer|
    ensures Valid(s)
    ensures s.t >= r.t && s.offsetT == r.offsetT
    ensures s.width == r.width && s.height == r.height && s.bufferLength == r.bufferLength
    decreases if from < to then to - from else 0
  {
    if from >= to then r
    else Decode(Step(r, ReadU16(buffer, 2 * from)), buffer, from + 1, to)
  }

  /** The rebasing loop: while the time is more than `MAXIMUM_DELTA` past
      the origin, the origin moves `MAXIMUM_DELTA` on and every pixel is
      adjusted (`adjust` stands for the `f32` arithmetic). */
  function Rebase(r: Renderer, adjust: Pixel -> Pixel): (s: Renderer)
    requires Valid(r)
    ensures Valid(s)
    ensures s.t == r.t && s.offsetT <= s.t && s.t - s.offsetT <= MAXIMUM_DELTA
    ensures s.offsetT >= r.offsetT
    ensures s.width == r.width && s.height == r.height && s.bufferLength == r.bufferLength
    ensures s.t - r.offsetT <= MAXIMUM_DELTA ==> s == r
    decreases r.t - r.offsetT
  {
    if r.t - r.offsetT > MAXIMUM_DELTA then
      var pixels := seq(|r.pixels|, k requires 0 <= k < |r.pixels| => adjust(r.pixels[k]));
      Rebase(r.(offsetT := r.offsetT + MAXIMUM_DELTA, pixels := pixels), adjust)
    else r
  }

  /** The origin moves in whole steps of `MAXIMUM_DELTA`, and only as far
      as needed: one step less would leave the time too far ahead. */
  lemma {:induction false} RebaseInSteps(r: Renderer, adjust: Pixel -> Pixel)
    requires Valid(r)
    ensures var s := Rebase(r, adjust);
      && (s.offsetT - r.offsetT) % MAXIMUM_DELTA == 0
      && (s.offsetT > r.offsetT ==> s.t - (s.offsetT - MAXIMUM_DELTA) > MAXIMUM_DELTA)
    decreases r.t - r.offsetT
  {
    if r.t - r.offsetT > MAXIMUM_DELTA {
      var pixels := seq(|r.pixels|, k requires 0 <= k < |r.pixels| => adjust(r.pixels[k]));
      var next := r.(offsetT := r.offsetT + MAXIMUM_DELTA, pixels := pixels);
      RebaseInSteps(next, adjust);
      var d := Rebase(next, adjust).offsetT - next.offsetT;
      assert Rebase(r, adjust).offsetT - r.offsetT == d + MAXIMUM_DELTA;
    }
  }

  datatype RenderError = OutOfBounds

  /** The reads of `render` go past the buffer exactly when it reads a word
      at all and the last word ends past the buffer (a panic). */
  predicate ReadsPastEnd(r: Renderer, length: nat)
  {
    length / 2 > FIRST_WORD && 2 * (length / 2) > r.bufferLength
  }

  /** `render(renderer, length)` over the renderer's buffer `buffer`. */
  function Render(r: Renderer, buffer: seq<byte>, length: nat, adjust: Pixel -> Pixel): (s: Result<Renderer, RenderError>)
    requires Valid(r) && |buffer| == r.bufferLength
    ensures s.Err? <==> ReadsPastEnd(r, length)
    ensures s.Ok? ==> Valid(s.value) && s.value.t >= r.t
    ensures s.Ok? ==> s.value.offsetT <= s.value.t && s.value.t - s.value.offsetT <= MAXIMUM_DELTA
    ensures s.Ok? ==> s.value.offsetT >= r.offsetT
  {
    if ReadsPastEnd(r, length) then Err(OutOfBounds)
    else if length / 2 <= FIRST_WORD then Ok(Rebase(r, adjust))
    else Ok(Rebase(Decode(r, buffer, FIRST_WORD, length / 2), adjust))
  }

  /** Rendering at most the buffer's length never reads past it. */
  lemma RenderWithinBuffer(r: Renderer, buffer: seq<byte>, length: nat, adjust: Pixel -> Pixel)
    requires Valid(r) && |buffer| == r.bufferLength && length <= |buffer|
    ensures Render(r, buffer, length, adjust).Ok?
  {
  }

  /** The decoded words depend only on the bytes from 68 on. */
  lemma {:induction false} DecodeIgnoresFront(r: Renderer, a: seq<byte>, b: seq<byte>, from: nat, to: nat)
    requires Valid(r) && 2 * to <= |a| == |b| && 2 * FIRST_WORD <= |a| && FIRST_WORD <= from
    requires a[2 * FIRST_WORD..] == b[2 * FIRST_WORD..]
    ensures Decode(r, a, from, to) == Decode(r, b, from, to)
    decreases if from < to then to - from else 0
  {
    if from < to {
      assert a[2 * from] == a[2 * FIRST_WORD..][2 * from - 2 * FIRST_WORD];
      assert b[2 * from] == b[2 * FIRST_WORD..][2 * from - 2 * FIRST_WORD];
      assert a[2 * from + 1] == a[2 * FIRST_WORD..][2 * from + 1 - 2 * FIRST_WORD];
      assert b[2 * from + 1] == b[2 * FIRST_WORD..][2 * from + 1 - 2 * FIRST_WORD];
      DecodeIgnoresFront(Step(r, ReadU16(a, 2 * from)), a, b, from + 1, to);
    }
  }

  /** What `render` does with a packet does not depend on its first 68
      bytes: the 34-byte header and the first 34 bytes of events are
      skipped alike. */
  lemma RenderSkipsFirst68Bytes(r: Renderer, a: seq<byte>, b: seq<byte>, length: nat, adjust: Pixel -> Pixel)
    requires Valid(r) && |a| == |b| == r.bufferLength && 2 * FIRST_WORD <= |a|
    requires a[2 * FIRST_WORD..] == b[2 * FIRST_WORD..]
    ensures Render(r, a, length, adjust) == Render(r, b, length, adjust)
  {
    if !ReadsPastEnd(r, length) && length / 2 > FIRST_WORD {
      DecodeIgnoresFront(r, a, b, FIRST_WORD, length / 2);
    }
  }
}
