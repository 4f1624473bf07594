/** Bytes and the little-endian integer encodings used on the wire. */
module Bytes {

  type byte = x: int | 0 <= x < 256

  const TWO_8: nat := 0x100
  const TWO_16: nat := 0x1_0000
  const TWO_24: nat := 0x100_0000
  const TWO_32: nat := 0x1_0000_0000
  const TWO_64: nat := 0x1_0000_0000_0000_0000

  /** `v.to_le_bytes()` for a `u16`. */
  function LeU16(v: nat): (r: seq<byte>)
    requires v < TWO_16
    ensures |r| == 2
  {
    [v % 256, v / 256]
  }

  /** `v.to_le_bytes()` for a `u32`, and what `new Uint32Array(b, 0, 1)[0] = v`
      stores on a little-endian platform. */
  function LeU32(v: nat): (r: seq<byte>)
    requires v < TWO_32
    ensures |r| == 4
  {
    [v % 256, (v / 256) % 256, (v / 65536) % 256, v / 16777216]
  }

  /** `v.to_le_bytes()` for a `u64`. */
  function LeU64(v: nat): (r: seq<byte>)
    requires v < TWO_64
    ensures |r| == 8
  {
    LeU32(v % TWO_32) + LeU32(v / TWO_32)
  }

  /** A little-endian `u16` read at byte offset `at`. */
  function ReadU16(s: seq<byte>, at: nat): (r: nat)
    requires at + 2 <= |s|
    ensures r < TWO_16
  {
    s[at] as int + 256 * (s[at + 1] as int)
  }

  /** A little-endian `u32` read at byte offset `at`: `u32::from_le_bytes` and
      `new Uint32Array(buffer, at, 1)[0]` on a little-endian platform. */
  function ReadU32(s: seq<byte>, at: nat): (r: nat)
    requires at + 4 <= |s|
    ensures r < TWO_32
  {
    s[at] as int + 256 * (s[at + 1] as int) + 65536 * (s[at + 2] as int) + 16777216 * (s[at + 3] as int)
  }

  /** A little-endian `u64` read at byte offset `at`: `u64::from_le_bytes`. */
  function ReadU64(s: seq<byte>, at: nat): (r: nat)
    requires at + 8 <= |s|
    ensures r < TWO_64
  {
    ReadU32(s, at) + TWO_32 * ReadU32(s, at + 4)
  }

  /** Reading back what `LeU16` wrote recovers the value. */
  lemma ReadLeU16(v: nat)
    requires v < TWO_16
    ensures ReadU16(LeU16(v), 0) == v
  {
  }

  /** Quotient and remainder by 256 of a number written as `lo + 256 * q`. */
  lemma Split256(x: int, lo: int, q: int)
    requires 0 <= lo < 256 && x == lo + 256 * q
    ensures x % 256 == lo && x / 256 == q
  {
  }

  /** Quotient and remainder by 2^16 of a number written as `lo + 2^16 * q`. */
  lemma Split65536(x: int, lo: int, q: int)
    requires 0 <= lo < 65536 && x == lo + 65536 * q
    ensures x % 65536 == lo && x / 65536 == q
  {
  }

  /** Quotient and remainder by 2^24 of a number written as `lo + 2^24 * q`. */
  lemma Split16777216(x: int, lo: int, q: int)
    requires 0 <= lo < 16777216 && x == lo + 16777216 * q
    ensures x % 16777216 == lo && x / 16777216 == q
  {
  }

  /** Reading back what `LeU32` wrote recovers the value. */
  lemma ReadLeU32(v: nat)
    requires v < TWO_32
    ensures ReadU32(LeU32(v), 0) == v
  {
    var b0, q1 := v % 256, v / 256;
    var b1, q2 := q1 % 256, q1 / 256;
    var b2, b3 := q2 % 256, q2 / 256;
    Split65536(v, b0 + 256 * b1, q2);
    Split16777216(v, b0 + 256 * b1 + 65536 * b2, b3);
  }

  /** Writing back what `ReadU32` read reproduces the four bytes. */
  lemma LeReadU32(s: seq<byte>)
    requires |s| >= 4
    ensures LeU32(ReadU32(s, 0)) == s[..4]
  {
    var v := ReadU32(s, 0);
    var s0, s1, s2, s3 := s[0] as int, s[1] as int, s[2] as int, s[3] as int;
    Split256(v, s0, s1 + 256 * s2 + 65536 * s3);
    Split256(v / 256, s1, s2 + 256 * s3);
    Split65536(v, s0 + 256 * s1, s2 + 256 * s3);
    Split256(v / 65536, s2, s3);
    Split16777216(v, s0 + 256 * s1 + 65536 * s2, s3);
    assert LeU32(v) == [s0, s1, s2, s3];
  }

  /** The encoding is injective: different values give different bytes. */
  lemma LeU32Injective(a: nat, b: nat)
    requires a < TWO_32 && b < TWO_32
    requires LeU32(a) == LeU32(b)
    ensures a == b
  {
    ReadLeU32(a);
    ReadLeU32(b);
  }

  /** Reading back the eight bytes `LeU64` wrote, wherever they sit,
      recovers the value. */
  lemma ReadLeU64At(s: seq<byte>, at: nat, v: nat)
    requires v < TWO_64 && at + 8 <= |s|
    requires s[at..at + 8] == LeU64(v)
    ensures ReadU64(s, at) == v
  {
    var lo, hi := v % TWO_32, v / TWO_32;
    assert s[at..at + 4] == LeU64(v)[..4] == LeU32(lo);
    assert s[at + 4..at + 8] == LeU64(v)[4..] == LeU32(hi);
    ReadU32Shift(s, at);
    ReadU32Local(s[at..], LeU32(lo), 0);
    ReadU32Shift(s, at + 4);
    ReadU32Local(s[at + 4..], LeU32(hi), 0);
    ReadLeU32(lo);
    ReadLeU32(hi);
  }

  /** A read only depends on the four bytes it covers. */
  lemma ReadU32Local(s: seq<byte>, t: seq<byte>, at: nat)
    requires at + 4 <= |s| && at + 4 <= |t|
    requires s[at..at + 4] == t[at..at + 4]
    ensures ReadU32(s, at) == ReadU32(t, at)
  {
    assert s[at] == s[at..at + 4][0] == t[at];
    assert s[at + 1] == s[at..at + 4][1] == t[at + 1];
    assert s[at + 2] == s[at..at + 4][2] == t[at + 2];
    assert s[at + 3] == s[at..at + 4][3] == t[at + 3];
  }

  /** Reading at offset `at` of `s` is reading at offset 0 of the slice starting there. */
  lemma ReadU32Shift(s: seq<byte>, at: nat)
    requires at + 4 <= |s|
    ensures ReadU32(s, at) == ReadU32(s[at..], 0)
  {
  }
}
