/** The recording painter's colour logic (ui/src/painter.ts): `hexToRgba`,
    with `parseInt(…, 16)` on each two-character slice, the default
    colormaps of a new context, and the colormap upload that happens once,
    when the configuration says the colormap changed. */
module Painter {
  import opened Wrappers
  import opened Colormap

  /** The characters `parseInt` skips at the start: JavaScript's white space
      and line terminators. */
  predicate IsJsSpace(c: char)
  {
    var n := c as int;
    n == 0x09 || n == 0x0A || n == 0x0B || n == 0x0C || n == 0x0D || n == 0x20 || n == 0xA0 || n == 0x1680
    || (0x2000 <= n <= 0x200A) || n == 0x2028 || n == 0x2029 || n == 0x202F || n == 0x205F || n == 0x3000
    || n == 0xFEFF
  }

  /** The value of a hexadecimal digit of either case, if it is one. */
  function HexDigit(c: char): (r: Option<nat>)
    ensures r.Some? ==> r.value < 16
  {
    if '0' <= c <= '9' then Some(c as int - '0' as int)
    else if 'a' <= c <= 'f' then Some(c as int - 'a' as int + 10)
    else if 'A' <= c <= 'F' then Some(c as int - 'A' as int + 10)
    else None
  }

  predicate IsHexDigit(c: char)
  {
    HexDigit(c).Some?
  }

  function DigitValue(c: char): (r: nat)
    ensures r < 16
  {
    match HexDigit(c)
    case Some(d) => d
    case None => 0
  }

  /** The number of leading hexadecimal digits. */
  function HexPrefixLength(s: string): (n: nat)
    ensures n <= |s|
    ensures forall k :: 0 <= k < n ==> IsHexDigit(s[k])
    ensures n < |s| ==> !IsHexDigit(s[n])
    decreases |s|
  {
    if |s| > 0 && IsHexDigit(s[0]) then 1 + HexPrefixLength(s[1..]) else 0
  }

  /** The value of a string of hexadecimal digits, most significant first. */
  function HexValue(s: string): nat
    requires forall k :: 0 <= k < |s| ==> IsHexDigit(s[k])
  {
    if |s| == 0 then 0 else 16 * HexValue(s[..|s| - 1]) + DigitValue(s[|s| - 1])
  }

  /** `parseInt(s, 16)`: white space skipped, then the rest is read as
      `ParseSigned` reads it. */
  function ParseIntHex(s: string): (r: Number)
    ensures r.Finite? ==> exists k :: 0 <= k < |s| && IsHexDigit(s[k])
    ensures |s| > 0 && IsHexDigit(s[0]) && s[0] != '0' ==> r.Finite? && r.value >= 0
    decreases |s|
  {
    if |s| > 0 && IsJsSpace(s[0]) then ParseIntHex(s[1..]) else ParseSigned(s)
  }

  /** An optional sign, an optional `0x`/`0X`, then the longest run of
      hexadecimal digits; `NaN` when that run is empty. */
  function ParseSigned(t: string): (r: Number)
    ensures r.Finite? ==> exists k :: 0 <= k < |t| && IsHexDigit(t[k])
    ensures |t| > 0 && IsHexDigit(t[0]) && t[0] != '0' ==> r.Finite? && r.value >= 0
  {
    var negative := |t| > 0 && t[0] == '-';
    var unsigned := if |t| > 0 && (t[0] == '-' || t[0] == '+') then t[1..] else t;
    var digits := if |unsigned| >= 2 && unsigned[0] == '0' && (unsigned[1] == 'x' || unsigned[1] == 'X') then unsigned[2..] else unsigned;
    var n := HexPrefixLength(digits);
    if n == 0 then NaN
    else
      assert digits[0] == t[|t| - |digits|];
      var v: int := HexValue(digits[..n]);
      Finite(if negative then -v else v)
  }

  /** Two hexadecimal digits parse to their value, which is a byte. */
  lemma ParseHexPair(s: string)
    requires |s| == 2 && IsHexDigit(s[0]) && IsHexDigit(s[1])
    ensures ParseIntHex(s) == Finite(16 * DigitValue(s[0]) + DigitValue(s[1]))
    ensures 16 * DigitValue(s[0]) + DigitValue(s[1]) < 256
  {
    assert !IsJsSpace(s[0]);
    assert HexPrefixLength(s) == 2;
    assert s[..2] == s;
    assert s[..1] == [s[0]];
    assert HexValue(s[..1]) == DigitValue(s[0]);
  }

  /** A pair whose first character is neither a digit, a sign nor white
      space is `NaN`. */
  lemma ParseNotHex(s: string)
    requires |s| == 2 && !IsHexDigit(s[0]) && !IsJsSpace(s[0]) && s[0] != '-' && s[0] != '+'
    ensures ParseIntHex(s) == NaN
  {
  }

  datatype ColorError = ParseFailed(hex: string)

  /** `hexToRgba`: `#` followed by six characters gives red, green and blue
      with alpha 255, `#` followed by eight gives all four; anything else
      throws. The pairs go through `parseInt` unchecked, so a pair that is
      not hexadecimal gives `NaN` (or a partial or signed value) instead of
      an error. */
  function HexToRgba(hex: string): (r: Result<Rgba, ColorError>)
    ensures r.Err? <==> |hex| == 0 || hex[0] != '#' || (|hex| != 7 && |hex| != 9)
    ensures r.Err? ==> r.error == ParseFailed(hex)
    ensures r.Ok? ==>
      r.value.r == ParseIntHex(hex[1..3]) && r.value.g == ParseIntHex(hex[3..5]) && r.value.b == ParseIntHex(hex[5..7])
    ensures r.Ok? && |hex| == 7 ==> r.value.a == Finite(255)
    ensures r.Ok? && |hex| == 9 ==> r.value.a == ParseIntHex(hex[7..9])
  {
    if |hex| > 0 && hex[0] == '#' && |hex| == 7 then
      Ok(Rgba(ParseIntHex(hex[1..3]), ParseIntHex(hex[3..5]), ParseIntHex(hex[5..7]), Finite(255)))
    else if |hex| > 0 && hex[0] == '#' && |hex| == 9 then
      Ok(Rgba(ParseIntHex(hex[1..3]), ParseIntHex(hex[3..5]), ParseIntHex(hex[5..7]), ParseIntHex(hex[7..9])))
    else Err(ParseFailed(hex))
  }

  /** Two lower-case hexadecimal digits of a byte. */
  function Hex2(b: nat): (r: string)
    requires b < 256
    ensures |r| == 2
  {
    ["0123456789abcdef"[b / 16], "0123456789abcdef"[b % 16]]
  }

  lemma Hex2Digits(b: nat)
    requires b < 256
    ensures IsHexDigit(Hex2(b)[0]) && IsHexDigit(Hex2(b)[1])
    ensures 16 * DigitValue(Hex2(b)[0]) + DigitValue(Hex2(b)[1]) == b
  {
    var digits := "0123456789abcdef";
    forall d | 0 <= d < 16
      ensures HexDigit(digits[d]) == Some(d)
    {
    }
  }

  /** The byte spelled by the two hexadecimal digits at `i`. */
  function Pair(hex: string, i: nat): nat
    requires i + 1 < |hex|
  {
    16 * DigitValue(hex[i]) + DigitValue(hex[i + 1])
  }

  predicate AllHexFrom(hex: string, i: nat)
  {
    forall k :: i <= k < |hex| ==> IsHexDigit(hex[k])
  }

  lemma ParsePairAt(hex: string, i: nat)
    requires i + 1 < |hex| && IsHexDigit(hex[i]) && IsHexDigit(hex[i + 1])
    ensures ParseIntHex(hex[i..i + 2]) == Finite(Pair(hex, i))
  {
    var s := hex[i..i + 2];
    assert s[0] == hex[i] && s[1] == hex[i + 1];
    ParseHexPair(s);
  }

  /** `#` and six hexadecimal digits: red, green and blue are the bytes
      they spell, alpha is 255. */
  lemma HexToRgbaOfDigits(hex: string)
    requires |hex| == 7 && hex[0] == '#' && AllHexFrom(hex, 1)
    ensures HexToRgba(hex) == Ok(Rgba(Finite(Pair(hex, 1)), Finite(Pair(hex, 3)), Finite(Pair(hex, 5)), Finite(255)))
  {
    var x := HexToRgba(hex);
    assert x.value.r == Finite(Pair(hex, 1)) by {
      ParsePairAt(hex, 1);
    }
    assert x.value.g == Finite(Pair(hex, 3)) by {
      ParsePairAt(hex, 3);
    }
    assert x.value.b == Finite(Pair(hex, 5)) by {
      ParsePairAt(hex, 5);
    }
  }

  /** `#` and eight hexadecimal digits: all four components are the bytes
      they spell. */
  lemma HexToRgbaOfDigitsAlpha(hex: string)
    requires |hex| == 9 && hex[0] == '#' && AllHexFrom(hex, 1)
    ensures HexToRgba(hex) == Ok(Rgba(Finite(Pair(hex, 1)), Finite(Pair(hex, 3)), Finite(Pair(hex, 5)), Finite(Pair(hex, 7))))
  {
    var x := HexToRgba(hex);
    assert x.value.r == Finite(Pair(hex, 1)) by {
      ParsePairAt(hex, 1);
    }
    assert x.value.g == Finite(Pair(hex, 3)) by {
      ParsePairAt(hex, 3);
    }
    assert x.value.b == Finite(Pair(hex, 5)) by {
      ParsePairAt(hex, 5);
    }
    assert x.value.a == Finite(Pair(hex, 7)) by {
      ParsePairAt(hex, 7);
    }
  }

  /** Two digits written by `Hex2` inside a longer string spell its byte. */
  lemma Hex2At(hex: string, i: nat, b: nat)
    requires b < 256 && i + 2 <= |hex| && hex[i..i + 2] == Hex2(b)
    ensures IsHexDigit(hex[i]) && IsHexDigit(hex[i + 1]) && Pair(hex, i) == b
  {
    Hex2Digits(b);
    assert hex[i] == Hex2(b)[0] && hex[i + 1] == Hex2(b)[1];
  }

  /** A colour written as `#rrggbb` reads back as itself, opaque. */
  lemma HexToRgbaRoundTrip(r: nat, g: nat, b: nat)
    requires r < 256 && g < 256 && b < 256
    ensures HexToRgba("#" + Hex2(r) + Hex2(g) + Hex2(b)) == Ok(Rgba(Finite(r), Finite(g), Finite(b), Finite(255)))
  {
    var hex := "#" + Hex2(r) + Hex2(g) + Hex2(b);
    assert hex[1..3] == Hex2(r) && hex[3..5] == Hex2(g) && hex[5..7] == Hex2(b);
    Hex2At(hex, 1, r);
    Hex2At(hex, 3, g);
    Hex2At(hex, 5, b);
    HexToRgbaOfDigits(hex);
  }

  /** A colour written as `#rrggbbaa` reads back as itself. */
  lemma HexToRgbaRoundTripAlpha(r: nat, g: nat, b: nat, a: nat)
    requires r < 256 && g < 256 && b < 256 && a < 256
    ensures HexToRgba("#" + Hex2(r) + Hex2(g) + Hex2(b) + Hex2(a)) == Ok(Rgba(Finite(r), Finite(g), Finite(b), Finite(a)))
  {
    var hex := "#" + Hex2(r) + Hex2(g) + Hex2(b) + Hex2(a);
    assert hex[1..3] == Hex2(r) && hex[3..5] == Hex2(g) && hex[5..7] == Hex2(b) && hex[7..9] == Hex2(a);
    Hex2At(hex, 1, r);
    Hex2At(hex, 3, g);
    Hex2At(hex, 5, b);
    Hex2At(hex, 7, a);
    HexToRgbaOfDigitsAlpha(hex);
  }

  /** A context's colour configuration; `changed` says the texture must be
      uploaded again. */
  datatype Configuration = Configuration(on: seq<Rgba>, off: seq<Rgba>, changed: bool)

  /** The configuration of a new context: two-colour on and off colormaps
      that share their dark end, and a pending upload. */
  function DefaultConfiguration(): (c: Configuration)
    ensures c.changed && |c.on| == 2 && |c.off| == 2
    ensures c.on[0] == c.off[0] == Rgba(Finite(0x19), Finite(0x19), Finite(0x19), Finite(255))
    ensures c.on[1] == Rgba(Finite(0xFB), Finite(0xBC), Finite(0x05), Finite(255))
    ensures c.off[1] == Rgba(Finite(0x42), Finite(0x85), Finite(0xF4), Finite(255))
  {
    DefaultColors();
    Configuration(
      [HexToRgba("#191919").value, HexToRgba("#FBBC05").value],
      [HexToRgba("#191919").value, HexToRgba("#4285F4").value],
      true)
  }

  lemma DefaultColors()
    ensures HexToRgba("#191919") == Ok(Rgba(Finite(0x19), Finite(0x19), Finite(0x19), Finite(255)))
    ensures HexToRgba("#FBBC05") == Ok(Rgba(Finite(0xFB), Finite(0xBC), Finite(0x05), Finite(255)))
    ensures HexToRgba("#4285F4") == Ok(Rgba(Finite(0x42), Finite(0x85), Finite(0xF4), Finite(255)))
  {
    Gray();
    Yellow();
    Blue();
  }

  lemma Gray()
    ensures HexToRgba("#191919") == Ok(Rgba(Finite(0x19), Finite(0x19), Finite(0x19), Finite(255)))
  {
    var hex := "#191919";
    assert AllHexFrom(hex, 1) by {
      forall k | 1 <= k < 7
        ensures IsHexDigit(hex[k])
      {
      }
    }
    assert Pair(hex, 1) == 0x19 && Pair(hex, 3) == 0x19 && Pair(hex, 5) == 0x19;
    HexToRgbaOfDigits(hex);
  }

  lemma Yellow()
    ensures HexToRgba("#FBBC05") == Ok(Rgba(Finite(0xFB), Finite(0xBC), Finite(0x05), Finite(255)))
  {
    var hex := "#FBBC05";
    assert AllHexFrom(hex, 1) by {
      forall k | 1 <= k < 7
        ensures IsHexDigit(hex[k])
      {
      }
    }
    assert Pair(hex, 1) == 0xFB && Pair(hex, 3) == 0xBC && Pair(hex, 5) == 0x05;
    HexToRgbaOfDigits(hex);
  }

  lemma Blue()
    ensures HexToRgba("#4285F4") == Ok(Rgba(Finite(0x42), Finite(0x85), Finite(0xF4), Finite(255)))
  {
    var hex := "#4285F4";
    assert AllHexFrom(hex, 1) by {
      forall k | 1 <= k < 7
        ensures IsHexDigit(hex[k])
      {
      }
    }
    assert Pair(hex, 1) == 0x42 && Pair(hex, 3) == 0x85 && Pair(hex, 5) == 0xF4;
    HexToRgbaOfDigits(hex);
  }

  /** The colormap part of `paint`: when the configuration changed, the
      texture row `Pack` writes is uploaded and the flag cleared; otherwise
      nothing is uploaded and the configuration is kept. */
  function UploadColormap(c: Configuration): (r: (Configuration, Option<seq<nat>>))
    ensures r.1.Some? <==> c.changed
    ensures r.1.Some? ==> r.1.value == Flatten(Reversed(c.off) + c.on)
    ensures !r.0.changed && r.0.on == c.on && r.0.off == c.off
  {
    if c.changed then (c.(changed := false), Some(Flatten(Reversed(c.off) + c.on)))
    else (c, None)
  }

  /** The texture is uploaded once: painting again uploads nothing and
      changes nothing. */
  lemma UploadOnce(c: Configuration)
    ensures var (after, _) := UploadColormap(c);
      UploadColormap(after) == (after, None)
  {
  }

  /** The first upload of a new context holds the default colours: slot 0
      the blue end of the off map, slot 1 the shared dark colour, then the
      dark colour and the yellow end of the on map. */
  lemma DefaultUpload()
    ensures var (_, upload) := UploadColormap(DefaultConfiguration());
      upload.Some? && |upload.value| == 16
      && Slot(upload.value, 0) == [0x42, 0x85, 0xF4, 255] && Slot(upload.value, 1) == [0x19, 0x19, 0x19, 255]
      && Slot(upload.value, 2) == [0x19, 0x19, 0x19, 255] && Slot(upload.value, 3) == [0xFB, 0xBC, 0x05, 255]
  {
    var c := DefaultConfiguration();
    var data := UploadColormap(c).1.value;
    PackSlots(c.off, c.on, data);
  }
}
