/** The colormap texture both painters upload (ui/src/painter.ts and
    ui/src/eventPainter.ts): the off colours in reverse order, then the on
    colours, four bytes per colour. */
module Colormap {

  /** A JavaScript number as far as the colour code can produce one: an
      integer, or `NaN` when a colour component failed to parse. */
  datatype Number = Finite(value: int) | NaN

  /** A colour: red, green, blue and alpha components. */
  datatype Rgba = Rgba(r: Number, g: Number, b: Number, a: Number)

  /** The value a `Uint8Array` stores for a number: `NaN` is 0, an integer
      is taken modulo 256. */
  function ToUint8(n: Number): (r: nat)
    ensures r < 256
    ensures n.Finite? && 0 <= n.value < 256 ==> r == n.value
    ensures n.NaN? ==> r == 0
  {
    match n
    case NaN => 0
    case Finite(v) => v % 256
  }

  /** The four stored bytes of one colour. */
  function Channels(c: Rgba): (r: seq<nat>)
    ensures |r| == 4
  {
    [ToUint8(c.r), ToUint8(c.g), ToUint8(c.b), ToUint8(c.a)]
  }

  function Reversed<T>(s: seq<T>): (r: seq<T>)
    ensures |r| == |s|
    ensures forall k :: 0 <= k < |s| ==> r[k] == s[|s| - 1 - k]
  {
    seq(|s|, k requires 0 <= k < |s| => s[|s| - 1 - k])
  }

  /** The bytes of a sequence of colours laid end to end. */
  function Flatten(colors: seq<Rgba>): (r: seq<nat>)
    ensures |r| == 4 * |colors|
    ensures forall i :: 0 <= i < |r| ==> r[i] == Channels(colors[i / 4])[i % 4]
  {
    seq(4 * |colors|, i requires 0 <= i < 4 * |colors| => Channels(colors[i / 4])[i % 4])
  }

  /** The texture row as the packing loops write it: a zeroed array of
      `4 * (|off| + |on|)` bytes, off colour `k` stored at slot
      `|off| - 1 - k` walking down, then on colour `j` at slot `|off| + j`
      walking up. The result is the reference layout: off reversed, then on. */
  method Pack(off: seq<Rgba>, on: seq<Rgba>) returns (data: seq<nat>)
    ensures data == Flatten(Reversed(off) + on)
  {
    data := Zeros(4 * (|off| + |on|));
    ZerosSplit(4 * |off|, 4 * |on|);
    assert data == Zeros(4 * |off|) + Flatten(Reversed(off[..0])) + Zeros(4 * |on|);
    var index := (|off| - 1) * 4;
    var k := 0;
    while k < |off|
      invariant 0 <= k <= |off|
      invariant index == (|off| - 1 - k) * 4
      invariant data == Zeros(4 * (|off| - k)) + Flatten(Reversed(off[..k])) + Zeros(4 * |on|)
    {
      OffStep(off, on, k, data);
      data := Put(data, index, Channels(off[k]));
      index := index - 4;
      k := k + 1;
    }
    assert off[..|off|] == off;
    assert data == Flatten(Reversed(off)) + Flatten(on[..0]) + Zeros(4 * |on|);
    index := |off| * 4;
    var j := 0;
    while j < |on|
      invariant 0 <= j <= |on|
      invariant index == (|off| + j) * 4
      invariant data == Flatten(Reversed(off)) + Flatten(on[..j]) + Zeros(4 * (|on| - j))
    {
      OnStep(off, on, j, data);
      data := Put(data, index, Channels(on[j]));
      index := index + 4;
      j := j + 1;
    }
    assert on[..|on|] == on;
    FlattenAppend(Reversed(off), on);
  }

  /** One turn of the loop over the off colours. */
  lemma OffStep(off: seq<Rgba>, on: seq<Rgba>, k: nat, data: seq<nat>)
    requires k < |off|
    requires data == Zeros(4 * (|off| - k)) + Flatten(Reversed(off[..k])) + Zeros(4 * |on|)
    ensures Put(data, (|off| - 1 - k) * 4, Channels(off[k]))
      == Zeros(4 * (|off| - (k + 1))) + Flatten(Reversed(off[..k + 1])) + Zeros(4 * |on|)
  {
    var done := Flatten(Reversed(off[..k]));
    var c := Channels(off[k]);
    var below := 4 * (|off| - (k + 1));
    assert below + 4 == 4 * (|off| - k) && below == (|off| - 1 - k) * 4;
    assert data == Zeros(below + 4) + (done + Zeros(4 * |on|));
    PutBelow(below, c, done + Zeros(4 * |on|));
    assert Flatten(Reversed(off[..k + 1])) == c + done by {
      ReversedStep(off, k);
      FlattenAppend([off[k]], Reversed(off[..k]));
      assert Flatten([off[k]]) == c;
    }
  }

  /** Storing four bytes just below the written part of the array. */
  lemma PutBelow(zeros: nat, c: seq<nat>, rest: seq<nat>)
    requires |c| == 4
    ensures Put(Zeros(zeros + 4) + rest, zeros, c) == Zeros(zeros) + (c + rest)
  {
    ZerosSplit(zeros, 4);
    PutAt(Zeros(zeros), Zeros(4), rest, c);
  }

  /** One turn of the loop over the on colours. */
  lemma OnStep(off: seq<Rgba>, on: seq<Rgba>, j: nat, data: seq<nat>)
    requires j < |on|
    requires data == Flatten(Reversed(off)) + Flatten(on[..j]) + Zeros(4 * (|on| - j))
    ensures Put(data, (|off| + j) * 4, Channels(on[j]))
      == Flatten(Reversed(off)) + Flatten(on[..j + 1]) + Zeros(4 * (|on| - (j + 1)))
  {
    var before := Flatten(Reversed(off)) + Flatten(on[..j]);
    var c := Channels(on[j]);
    var rest := Zeros(4 * (|on| - (j + 1)));
    assert (|off| + j) * 4 == |before|;
    assert data == before + Zeros(4) + rest by {
      ZerosSplit(4, 4 * (|on| - (j + 1)));
    }
    assert Put(data, |before|, c) == before + c + rest by {
      PutAt(before, Zeros(4), rest, c);
    }
    assert Flatten(on[..j + 1]) == Flatten(on[..j]) + c by {
      assert on[..j + 1] == on[..j] + [on[j]];
      FlattenAppend(on[..j], [on[j]]);
      assert Flatten([on[j]]) == c;
    }
  }

  function Zeros(n: nat): (r: seq<nat>)
    ensures |r| == n && forall i :: 0 <= i < n ==> r[i] == 0
  {
    seq(n, _ => 0)
  }

  lemma ZerosSplit(a: nat, b: nat)
    ensures Zeros(a + b) == Zeros(a) + Zeros(b)
  {
  }

  /** The four stores of one colour at `index`. */
  function Put(data: seq<nat>, index: int, c: seq<nat>): (r: seq<nat>)
    requires 0 <= index && index + 4 <= |data| && |c| == 4
    ensures |r| == |data|
  {
    data[index := c[0]][index + 1 := c[1]][index + 2 := c[2]][index + 3 := c[3]]
  }

  lemma PutAt(prefix: seq<nat>, middle: seq<nat>, rest: seq<nat>, c: seq<nat>)
    requires |middle| == 4 && |c| == 4
    ensures Put(prefix + middle + rest, |prefix|, c) == prefix + c + rest
  {
  }

  lemma ReversedStep<T>(s: seq<T>, k: nat)
    requires k < |s|
    ensures Reversed(s[..k + 1]) == [s[k]] + Reversed(s[..k])
  {
  }

  lemma FlattenAppend(a: seq<Rgba>, b: seq<Rgba>)
    ensures Flatten(a + b) == Flatten(a) + Flatten(b)
  {
    var l := Flatten(a + b);
    var r := Flatten(a) + Flatten(b);
    forall i | 0 <= i < |l|
      ensures l[i] == r[i]
    {
      FlattenAppendAt(a, b, i);
    }
  }

  lemma FlattenAppendAt(a: seq<Rgba>, b: seq<Rgba>, i: nat)
    requires i < 4 * (|a| + |b|)
    ensures Flatten(a + b)[i] == (Flatten(a) + Flatten(b))[i]
  {
    var c := a + b;
    if i >= 4 * |a| {
      var m := i - 4 * |a|;
      Shift4(i, |a|, m);
      assert c[i / 4] == b[m / 4];
      assert (Flatten(a) + Flatten(b))[i] == Flatten(b)[m];
    } else {
      assert i / 4 < |a|;
      assert c[i / 4] == a[i / 4];
    }
  }

  /** Skipping `n` whole colours: byte `4 * n + m` is byte `m % 4` of colour
      `n + m / 4`. */
  lemma Shift4(i: int, n: int, m: int)
    requires 0 <= m && i == 4 * n + m
    ensures i / 4 == n + m / 4 && i % 4 == m % 4
  {
    var q, r := m / 4, m % 4;
    assert i == 4 * (n + q) + r;
  }

  /** The four bytes of colour slot `k`. */
  function Slot(data: seq<nat>, k: nat): (r: seq<nat>)
    requires 4 * k + 4 <= |data|
    ensures |r| == 4
  {
    data[4 * k..4 * k + 4]
  }

  /** Slot by slot: the colour at slot `k < |off|` is off colour
      `|off| - 1 - k`, and the colour at slot `|off| + j` is on colour `j`. */
  lemma PackSlots(off: seq<Rgba>, on: seq<Rgba>, data: seq<nat>)
    requires data == Flatten(Reversed(off) + on)
    ensures |data| == 4 * (|off| + |on|)
    ensures forall k :: 0 <= k < |off| ==> Slot(data, k) == Channels(off[|off| - 1 - k])
    ensures forall j :: 0 <= j < |on| ==> Slot(data, |off| + j) == Channels(on[j])
  {
    var layout := Reversed(off) + on;
    forall k | 0 <= k < |layout|
      ensures Slot(data, k) == Channels(layout[k])
    {
      forall c | 0 <= c < 4
        ensures data[4 * k + c] == Channels(layout[k])[c]
      {
        SlotOf(k, c);
      }
    }
    forall k | 0 <= k < |off|
      ensures Slot(data, k) == Channels(off[|off| - 1 - k])
    {
      assert layout[k] == off[|off| - 1 - k];
    }
    forall j | 0 <= j < |on|
      ensures Slot(data, |off| + j) == Channels(on[j])
    {
      assert layout[|off| + j] == on[j];
    }
  }

  lemma SlotOf(k: nat, c: nat)
    requires c < 4
    ensures (4 * k + c) / 4 == k && (4 * k + c) % 4 == c
  {
  }
}
