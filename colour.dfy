/**
 * Colour arithmetic of the styler (geomageddon.py, "helpers de cor").
 *
 * Colours travel as hex strings ("#RRGGBB", or "" for "no colour") and are
 * blended as RGB triples. Channels are unbounded integers here; the clamp to
 * 0..255 that _rgb_to_hex performs is written out. Python floats are modelled
 * as exact reals: int() truncates toward zero, round() rounds halves to even.
 */
module Colour {
  import opened Common

  datatype Rgb = Rgb(r: int, g: int, b: int)

  /** Channel `i` (0 = red, 1 = green, 2 = blue). */
  function Ch(c: Rgb, i: nat): int
    requires i < 3
  {
    if i == 0 then c.r else if i == 1 then c.g else c.b
  }

  predicate InRange(c: Rgb) {
    0 <= c.r <= 255 && 0 <= c.g <= 255 && 0 <= c.b <= 255
  }

  // ------------------------------------------------------------ hex parse

  function HexDigitValue(c: char): Option<nat> {
    if '0' <= c <= '9' then Some(c as int - '0' as int)
    else if 'a' <= c <= 'f' then Some(c as int - 'a' as int + 10)
    else if 'A' <= c <= 'F' then Some(c as int - 'A' as int + 10)
    else None
  }

  predicate IsHexDigit(c: char) { HexDigitValue(c).Some? }

  function HexPair(a: char, b: char): int
    requires IsHexDigit(a) && IsHexDigit(b)
  {
    HexDigitValue(a).value * 16 + HexDigitValue(b).value
  }

  /** `hex_str.lstrip("#")`. */
  function LStripHash(s: string): (h: string)
    ensures h == [] || h[0] != '#'
  {
    if s != [] && s[0] == '#' then LStripHash(s[1..]) else s
  }

  /**
   * _hex_to_rgb: drop leading '#', read the pairs at offsets 0, 2 and 4 as
   * base-16 numbers. None stands for the ValueError Python raises.
   */
  function HexToRgb(s: string): (c: Option<Rgb>)
    ensures c.Some? ==> InRange(c.value)
  {
    var h := LStripHash(s);
    if |h| >= 6 && (forall i :: 0 <= i < 6 ==> IsHexDigit(h[i])) then
      Some(Rgb(HexPair(h[0], h[1]), HexPair(h[2], h[3]), HexPair(h[4], h[5])))
    else None
  }

  /** A value the colour helpers accept: empty ("no colour") or parseable hex. */
  predicate IsColour(s: string) { s == "" || HexToRgb(s).Some? }

  // ----------------------------------------------------------- hex format

  function Clamp(x: int): (y: int)
    ensures 0 <= y <= 255
    ensures 0 <= x <= 255 ==> y == x
    ensures x < 0 ==> y == 0
    ensures x > 255 ==> y == 255
  {
    if x < 0 then 0 else if x > 255 then 255 else x
  }

  function ClampRgb(c: Rgb): Rgb {
    Rgb(Clamp(c.r), Clamp(c.g), Clamp(c.b))
  }

  function HexChar(n: int): (c: char)
    requires 0 <= n < 16
    ensures HexDigitValue(c) == Some(n) && !IsLowerAscii(c)
  {
    if n < 10 then ('0' as int + n) as char else ('A' as int + n - 10) as char
  }

  function Hex2(n: int): string
    requires 0 <= n <= 255
  {
    [HexChar(n / 16), HexChar(n % 16)]
  }

  /** The only shape _rgb_to_hex produces: '#' and six upper-case hex digits. */
  predicate IsCanonicalHex(s: string) {
    |s| == 7 && s[0] == '#' &&
    forall i :: 1 <= i < 7 ==> IsHexDigit(s[i]) && !IsLowerAscii(s[i])
  }

  /**
   * _rgb_to_hex: clamps every channel to 0..255 and formats "#%02X%02X%02X";
   * reading the result back gives exactly the clamped triple.
   */
  function RgbToHex(c: Rgb): (s: string)
    ensures IsCanonicalHex(s)
    ensures HexToRgb(s) == Some(ClampRgb(c))
  {
    var k := ClampRgb(c);
    var s := "#" + Hex2(k.r) + Hex2(k.g) + Hex2(k.b);
    assert LStripHash(s) == s[1..];
    s
  }

  lemma CanonicalIsColour(s: string)
    requires IsCanonicalHex(s)
    ensures HexToRgb(s).Some?
  {
    assert LStripHash(s) == s[1..];
  }

  /** The other round trip: a canonical hex string is reproduced exactly. */
  lemma RgbToHexOfHexToRgb(s: string)
    requires IsCanonicalHex(s)
    ensures HexToRgb(s).Some? && RgbToHex(HexToRgb(s).value) == s
  {
    assert LStripHash(s) == s[1..];
    var c := HexToRgb(s).value;
    forall i | 1 <= i < 7
      ensures HexChar(HexDigitValue(s[i]).value) == s[i]
    {
      HexCharOfDigit(s[i]);
    }
    PairDigits(s[1], s[2]);
    PairDigits(s[3], s[4]);
    PairDigits(s[5], s[6]);
  }

  lemma HexCharOfDigit(d: char)
    requires IsHexDigit(d) && !IsLowerAscii(d)
    ensures HexDigitValue(d).value < 16 && HexChar(HexDigitValue(d).value) == d
  {
  }

  lemma PairDigits(a: char, b: char)
    requires IsHexDigit(a) && IsHexDigit(b)
    ensures 0 <= HexPair(a, b) <= 255
    ensures HexPair(a, b) / 16 == HexDigitValue(a).value
    ensures HexPair(a, b) % 16 == HexDigitValue(b).value
  {
  }

  // ------------------------------------------------------ rgba <-> hex

  function DigitValue(c: char): nat
    requires IsDigit(c)
  {
    c as int - '0' as int
  }

  predicate AllDigits(s: string) { forall i :: 0 <= i < |s| ==> IsDigit(s[i]) }

  /** int() of a run of ASCII digits. */
  function DecimalValue(s: string): nat
    requires AllDigits(s)
  {
    if s == [] then 0 else DecimalValue(s[..|s| - 1]) * 10 + DigitValue(s[|s| - 1])
  }

  /** Python's f"{n}" for a natural number. */
  function NatToDecimal(n: nat): (s: string)
    ensures s != [] && AllDigits(s)
  {
    if n < 10 then [('0' as int + n) as char]
    else NatToDecimal(n / 10) + [('0' as int + n % 10) as char]
  }

  lemma {:induction false} DecimalOfNatToDecimal(n: nat)
    ensures DecimalValue(NatToDecimal(n)) == n
  {
    if n >= 10 {
      DecimalOfNatToDecimal(n / 10);
      var s := NatToDecimal(n);
      assert s[..|s| - 1] == NatToDecimal(n / 10);
    }
  }

  function LeadingDigits(s: string): (k: nat)
    ensures k <= |s|
    ensures forall i :: 0 <= i < k ==> IsDigit(s[i])
    ensures k < |s| ==> !IsDigit(s[k])
  {
    if s != [] && IsDigit(s[0]) then 1 + LeadingDigits(s[1..]) else 0
  }

  /** `re.findall(r'\d+', s)` mapped through int(): the maximal digit runs. */
  function DigitRuns(s: string): seq<nat>
    decreases |s|
  {
    if s == [] then []
    else if !IsDigit(s[0]) then DigitRuns(s[1..])
    else
      var k := LeadingDigits(s);
      [DecimalValue(s[..k])] + DigitRuns(s[k..])
  }

  /** _rgba_to_hex: the first three integers of any string, or "" without three. */
  function RgbaToHex(s: string): (r: string)
    ensures r == "" <==> |DigitRuns(s)| < 3
    ensures r != "" ==> IsCanonicalHex(r)
  {
    var nums := DigitRuns(s);
    if |nums| >= 3 then RgbToHex(Rgb(nums[0], nums[1], nums[2])) else ""
  }

  /** Numbers written in decimal and joined by commas. */
  function CommaJoin(xs: seq<nat>): string
    requires xs != []
  {
    if |xs| == 1 then NatToDecimal(xs[0])
    else NatToDecimal(xs[0]) + [','] + CommaJoin(xs[1..])
  }

  /** _hex_to_rgba: "r,g,b,a" in decimal. */
  function HexToRgba(s: string, a: nat): string
    requires HexToRgb(s).Some?
  {
    var c := HexToRgb(s).value;
    CommaJoin([c.r, c.g, c.b, a])
  }

  lemma DigitRunsOfRun(d: string, rest: string)
    requires d != [] && AllDigits(d)
    requires rest == [] || !IsDigit(rest[0])
    ensures DigitRuns(d + rest) == [DecimalValue(d)] + DigitRuns(rest)
  {
    var s := d + rest;
    LeadingDigitsOfRun(d, rest);
    assert s[..|d|] == d && s[|d|..] == rest;
  }

  lemma {:induction false} LeadingDigitsOfRun(d: string, rest: string)
    requires AllDigits(d)
    requires rest == [] || !IsDigit(rest[0])
    ensures LeadingDigits(d + rest) == |d|
  {
    if d != [] {
      assert (d + rest)[1..] == d[1..] + rest;
      LeadingDigitsOfRun(d[1..], rest);
    }
  }

  lemma DigitRunsComma(rest: string)
    ensures DigitRuns([','] + rest) == DigitRuns(rest)
  {
    assert ([','] + rest)[1..] == rest;
  }

  lemma {:induction false} DigitRunsOfCommaJoin(xs: seq<nat>)
    requires xs != []
    ensures DigitRuns(CommaJoin(xs)) == xs
  {
    var d := NatToDecimal(xs[0]);
    DecimalOfNatToDecimal(xs[0]);
    if |xs| == 1 {
      assert d + [] == d;
      DigitRunsOfRun(d, []);
    } else {
      var tail := CommaJoin(xs[1..]);
      assert CommaJoin(xs) == d + ([','] + tail);
      DigitRunsOfRun(d, [','] + tail);
      DigitRunsComma(tail);
      DigitRunsOfCommaJoin(xs[1..]);
    }
  }

  /**
   * Writing a colour as "r,g,b,a" and reading it back with _rgba_to_hex gives
   * the colour's canonical hex form.
   */
  lemma RgbaRoundTrip(s: string, a: nat)
    requires HexToRgb(s).Some?
    ensures RgbaToHex(HexToRgba(s, a)) == RgbToHex(HexToRgb(s).value)
  {
    var c := HexToRgb(s).value;
    DigitRunsOfCommaJoin([c.r, c.g, c.b, a]);
  }

  // ------------------------------------------------------------ mix_two

  /** Python's int() on a float: truncation toward zero. */
  function Trunc(x: real): (n: int)
    ensures x >= 0.0 ==> n as real <= x < n as real + 1.0
    ensures x < 0.0 ==> n as real - 1.0 < x <= n as real
  {
    if x >= 0.0 then x.Floor else -((-x).Floor)
  }

  /** The point at weight `a` on the segment from x1 to x2. */
  function Blend(x1: real, x2: real, a: real): real {
    (1.0 - a) * x1 + a * x2
  }

  function Lerp(x1: int, x2: int, a: real): int {
    Trunc(Blend(x1 as real, x2 as real, a))
  }

  /**
   * mix_two: per-channel linear interpolation at weight `a`, truncated; an
   * empty colour on one side returns the other argument verbatim.
   */
  function MixTwo(c1: string, c2: string, a: real): (r: string)
    requires IsColour(c1) && IsColour(c2)
    ensures IsColour(r)
    ensures r == "" <==> c1 == "" && c2 == ""
    ensures c1 == "" ==> r == c2
    ensures c2 == "" ==> r == c1
    ensures c1 != "" && c2 != "" ==> IsCanonicalHex(r)
  {
    if c1 == "" && c2 == "" then ""
    else if c1 == "" then c2
    else if c2 == "" then c1
    else
      var p := HexToRgb(c1).value;
      var q := HexToRgb(c2).value;
      RgbToHex(Rgb(Lerp(p.r, q.r, a), Lerp(p.g, q.g, a), Lerp(p.b, q.b, a)))
  }

  /** The two ways of reading a blend: from x1 towards x2, and back from x2. */
  lemma BlendForms(x1: real, x2: real, a: real)
    ensures Blend(x1, x2, a) == x1 + a * (x2 - x1)
    ensures Blend(x1, x2, a) == x2 + (1.0 - a) * (x1 - x2)
  {
    Distrib(a, x2, -x1);
    Distrib(1.0 - a, x1, -x2);
  }

  lemma ConvexBetween(x1: real, x2: real, a: real)
    requires 0.0 <= a <= 1.0
    ensures x1 <= x2 ==> x1 <= Blend(x1, x2, a) <= x2
    ensures x2 <= x1 ==> x2 <= Blend(x1, x2, a) <= x1
  {
    if x1 <= x2 {
      BlendUp(x1, x2, a);
    }
    if x2 <= x1 {
      BlendDown(x1, x2, a);
    }
  }

  lemma BlendUp(x1: real, x2: real, a: real)
    requires 0.0 <= a <= 1.0 && x1 <= x2
    ensures x1 <= Blend(x1, x2, a) <= x2
  {
    var d := x2 - x1;
    BlendForms(x1, x2, a);
    PartWay(x1, d, a);
    assert x1 + d == x2;
  }

  lemma BlendDown(x1: real, x2: real, a: real)
    requires 0.0 <= a <= 1.0 && x2 <= x1
    ensures x2 <= Blend(x1, x2, a) <= x1
  {
    BlendForms(x1, x2, a);
    PartWay(x2, x1 - x2, 1.0 - a);
  }

  /** Going a fraction t of a non-negative distance d from x stays between x and x + d. */
  lemma PartWay(x: real, d: real, t: real)
    requires 0.0 <= t <= 1.0 && 0.0 <= d
    ensures x <= x + t * d <= x + d
  {
    MulLe(0.0, t, d);
    MulLe(t, 1.0, d);
  }

  lemma TruncBetween(v: real, lo: int, hi: int)
    requires 0 <= lo && lo as real <= v <= hi as real
    ensures lo <= Trunc(v) <= hi
  {
  }

  lemma LerpBetween(x1: int, x2: int, a: real)
    requires 0 <= x1 && 0 <= x2
    requires 0.0 <= a <= 1.0
    ensures x1 <= x2 ==> x1 <= Lerp(x1, x2, a) <= x2
    ensures x2 <= x1 ==> x2 <= Lerp(x1, x2, a) <= x1
  {
    ConvexBetween(x1 as real, x2 as real, a);
    if x1 <= x2 {
      TruncBetween(Blend(x1 as real, x2 as real, a), x1, x2);
    } else {
      TruncBetween(Blend(x1 as real, x2 as real, a), x2, x1);
    }
  }

  /** For 0 <= a <= 1 every output channel lies between the two input channels. */
  lemma MixTwoBetween(c1: string, c2: string, a: real, i: nat)
    requires c1 != "" && c2 != "" && IsColour(c1) && IsColour(c2)
    requires 0.0 <= a <= 1.0 && i < 3
    ensures var x1, x2 := Ch(HexToRgb(c1).value, i), Ch(HexToRgb(c2).value, i);
            var m := Ch(HexToRgb(MixTwo(c1, c2, a)).value, i);
            (x1 <= x2 ==> x1 <= m <= x2) && (x2 <= x1 ==> x2 <= m <= x1)
  {
    var p, q := HexToRgb(c1).value, HexToRgb(c2).value;
    LerpBetween(Ch(p, i), Ch(q, i), a);
    LerpBetween(p.r, q.r, a); LerpBetween(p.g, q.g, a); LerpBetween(p.b, q.b, a);
  }

  /** At a = 0.5 each channel is the integer mean (x1 + x2) div 2. */
  lemma MixTwoHalf(c1: string, c2: string)
    requires c1 != "" && c2 != "" && IsColour(c1) && IsColour(c2)
    ensures var p, q := HexToRgb(c1).value, HexToRgb(c2).value;
            HexToRgb(MixTwo(c1, c2, 0.5)) == Some(Rgb((p.r + q.r) / 2, (p.g + q.g) / 2, (p.b + q.b) / 2))
  {
    var p, q := HexToRgb(c1).value, HexToRgb(c2).value;
    var k := Rgb(Lerp(p.r, q.r, 0.5), Lerp(p.g, q.g, 0.5), Lerp(p.b, q.b, 0.5));
    assert MixTwo(c1, c2, 0.5) == RgbToHex(k);
    HalfLerp(p.r, q.r); HalfLerp(p.g, q.g); HalfLerp(p.b, q.b);
    InRangeClamped(k);
  }

  /** Clamping leaves an in-range colour as it is. */
  lemma InRangeClamped(k: Rgb)
    requires 0 <= k.r <= 255 && 0 <= k.g <= 255 && 0 <= k.b <= 255
    ensures ClampRgb(k) == k
  {
  }

  lemma HalfLerp(x1: int, x2: int)
    requires 0 <= x1 <= 255 && 0 <= x2 <= 255
    ensures Lerp(x1, x2, 0.5) == (x1 + x2) / 2
  {
    var v := Blend(x1 as real, x2 as real, 0.5);
    assert v == (x1 + x2) as real / 2.0;
    var h := (x1 + x2) / 2;
    assert x1 + x2 == 2 * h || x1 + x2 == 2 * h + 1;
  }

  /** At a = 0 the first colour comes back unchanged (when canonical). */
  lemma MixTwoAtZero(c1: string, c2: string)
    requires IsCanonicalHex(c1) && IsColour(c1) && IsColour(c2)
    ensures MixTwo(c1, c2, 0.0) == c1
  {
    CanonicalIsColour(c1);
    RgbToHexOfHexToRgb(c1);
  }

  /** At a = 1 the second colour comes back unchanged (when canonical). */
  lemma MixTwoAtOne(c1: string, c2: string)
    requires IsColour(c1) && IsCanonicalHex(c2) && IsColour(c2)
    ensures MixTwo(c1, c2, 1.0) == c2
  {
    CanonicalIsColour(c2);
    RgbToHexOfHexToRgb(c2);
  }

  // ------------------------------------------------------------- jitter

  /** A colour in Python colorsys' HLS space. */
  datatype Hls = Hls(h: real, l: real, s: real)

  /**
   * The two colorsys conversions jitter relies on; floating-point colour
   * space conversion is not modelled, so callers supply them.
   */
  datatype Colorsys = Colorsys(toHls: (real, real, real) -> Hls, fromHls: Hls -> (real, real, real))

  /** Golden-ratio step of the hue walk. */
  const Phi: real := 0.61803398875

  /** Python's `x % 1.0` (floored, so never negative). */
  function FracPart(x: real): (f: real)
    ensures 0.0 <= f < 1.0
    ensures (x - f).Floor as real == x - f
  {
    x - x.Floor as real
  }

  /** max(0, min(1, x)). */
  function Clamp01(x: real): (y: real)
    ensures 0.0 <= y <= 1.0
    ensures 0.0 <= x <= 1.0 ==> y == x
  {
    if x < 0.0 then 0.0 else if x > 1.0 then 1.0 else x
  }

  /** The hue offset for index k: (k + 1) * phi * dh. */
  function HueStep(k: nat, dh: real): real {
    (k + 1) as real * Phi * dh
  }

  /**
   * jitter's move in HLS space: hue walks by HueStep modulo 1, lightness
   * moves by dl up for even k and down for odd k, clamped to [0, 1];
   * saturation is kept.
   */
  function ShiftHls(x: Hls, k: nat, dh: real, dl: real): (y: Hls)
    ensures 0.0 <= y.h < 1.0 && 0.0 <= y.l <= 1.0 && y.s == x.s
    ensures (x.h + HueStep(k, dh) - y.h).Floor as real == x.h + HueStep(k, dh) - y.h
    ensures dl >= 0.0 && k % 2 == 0 && x.l <= 1.0 ==> y.l >= x.l
    ensures dl >= 0.0 && k % 2 == 1 && x.l >= 0.0 ==> y.l <= x.l
    ensures 0.0 <= x.l + dl <= 1.0 && k % 2 == 0 ==> y.l == x.l + dl
    ensures 0.0 <= x.l - dl <= 1.0 && k % 2 == 1 ==> y.l == x.l - dl
  {
    var sign := if k % 2 == 0 then 1.0 else -1.0;
    Hls(FracPart(x.h + HueStep(k, dh)), Clamp01(x.l + sign * dl), x.s)
  }

  /**
   * jitter: a reproducible small HLS variation of a colour, selected by the
   * index k; "" stays "".
   */
  function Jitter(cs: Colorsys, c: string, k: nat, dh: real, dl: real): (r: string)
    requires IsColour(c)
    ensures r == "" <==> c == ""
    ensures r != "" ==> IsCanonicalHex(r)
  {
    if c == "" then ""
    else
      var p := HexToRgb(c).value;
      var x := cs.toHls(p.r as real / 255.0, p.g as real / 255.0, p.b as real / 255.0);
      var q := cs.fromHls(ShiftHls(x, k, dh, dl));
      RgbToHex(Rgb(Trunc(q.0 * 255.0), Trunc(q.1 * 255.0), Trunc(q.2 * 255.0)))
  }

  // ----------------------------------------------------------- mix_many

  predicate AllColours(cs: seq<string>) {
    forall j :: 0 <= j < |cs| ==> IsColour(cs[j])
  }

  /** The colours that are not "" and so parse, in order. */
  function NonEmpty(cs: seq<string>): (r: seq<string>)
    requires AllColours(cs)
    ensures |r| <= |cs|
    ensures forall j :: 0 <= j < |r| ==> r[j] != "" && HexToRgb(r[j]).Some?
    ensures r == [] <==> forall j :: 0 <= j < |cs| ==> cs[j] == ""
  {
    if cs == [] then []
    else if cs[0] == "" then NonEmpty(cs[1..])
    else [cs[0]] + NonEmpty(cs[1..])
  }

  function ParseAll(cs: seq<string>): (ps: seq<Rgb>)
    requires forall j :: 0 <= j < |cs| ==> HexToRgb(cs[j]).Some?
    ensures |ps| == |cs|
    ensures forall j :: 0 <= j < |cs| ==> ps[j] == HexToRgb(cs[j]).value
  {
    if cs == [] then [] else [HexToRgb(cs[0]).value] + ParseAll(cs[1..])
  }

  function SumCh(ps: seq<Rgb>, i: nat): int
    requires i < 3
  {
    if ps == [] then 0 else Ch(ps[0], i) + SumCh(ps[1..], i)
  }

  /** mix_many: floor of the per-channel mean of the non-empty colours. */
  function MixMany(colors: seq<string>): (r: string)
    requires AllColours(colors)
    ensures r == "" <==> forall j :: 0 <= j < |colors| ==> colors[j] == ""
    ensures r != "" ==> IsCanonicalHex(r)
  {
    var cols := NonEmpty(colors);
    if |cols| == 0 then ""
    else
      RgbToHex(MeanRgb(ParseAll(cols)))
  }

  /** The floored mean of each channel. */
  function MeanRgb(ps: seq<Rgb>): (k: Rgb)
    requires ps != []
    ensures forall i :: 0 <= i < 3 ==> Ch(k, i) == SumCh(ps, i) / |ps|
  {
    Rgb(SumCh(ps, 0) / |ps|, SumCh(ps, 1) / |ps|, SumCh(ps, 2) / |ps|)
  }

  lemma {:induction false} SumChBounds(ps: seq<Rgb>, i: nat, lo: int, hi: int)
    requires i < 3
    requires forall j :: 0 <= j < |ps| ==> lo <= Ch(ps[j], i) <= hi
    ensures lo * |ps| <= SumCh(ps, i) <= hi * |ps|
  {
    if ps != [] { SumChBounds(ps[1..], i, lo, hi); }
  }

  /** Bounds on one channel of every non-empty colour of `cs`. */
  predicate ChannelWithin(cs: seq<string>, i: nat, lo: int, hi: int)
    requires AllColours(cs) && i < 3
  {
    forall j :: 0 <= j < |cs| && cs[j] != "" ==> lo <= Ch(HexToRgb(cs[j]).value, i) <= hi
  }

  lemma {:induction false} NonEmptyWithin(cs: seq<string>, i: nat, lo: int, hi: int)
    requires AllColours(cs) && i < 3 && ChannelWithin(cs, i, lo, hi)
    ensures forall j :: 0 <= j < |NonEmpty(cs)| ==> lo <= Ch(HexToRgb(NonEmpty(cs)[j]).value, i) <= hi
  {
    if cs != [] {
      var t := NonEmpty(cs[1..]);
      assert ChannelWithin(cs[1..], i, lo, hi) by {
        forall j | 0 <= j < |cs| - 1 && cs[1..][j] != ""
          ensures lo <= Ch(HexToRgb(cs[1..][j]).value, i) <= hi
        {
          assert cs[1..][j] == cs[j + 1];
        }
      }
      NonEmptyWithin(cs[1..], i, lo, hi);
      if cs[0] != "" {
        var r := NonEmpty(cs);
        assert r == [cs[0]] + t;
        forall j | 0 <= j < |r| ensures lo <= Ch(HexToRgb(r[j]).value, i) <= hi {
          if j > 0 { assert r[j] == t[j - 1]; }
        }
      }
    }
  }

  lemma MulLtInv(a: int, b: int, n: int)
    requires n > 0 && a * n < b * n
    ensures a < b
  {
  }

  lemma MulLeInv(a: int, b: int, n: int)
    requires n > 0 && a * n <= b * n
    ensures a <= b
  {
  }

  lemma DivBetween(s: int, n: int, lo: int, hi: int)
    requires n > 0 && lo * n <= s <= hi * n
    ensures lo <= s / n <= hi
  {
    var m := s / n;
    assert s == m * n + s % n;
    assert (m + 1) * n == m * n + n;
    MulLtInv(lo, m + 1, n);
    MulLeInv(m, hi, n);
  }

  lemma MeanChBetween(ps: seq<Rgb>, i: nat, lo: int, hi: int)
    requires i < 3 && ps != []
    requires forall j :: 0 <= j < |ps| ==> lo <= Ch(ps[j], i) <= hi
    ensures lo <= SumCh(ps, i) / |ps| <= hi
  {
    SumChBounds(ps, i, lo, hi);
    DivBetween(SumCh(ps, i), |ps|, lo, hi);
  }

  /**
   * Any bounds that every non-empty input channel respects, the mixed
   * channel respects too.
   */
  lemma MixManyBetween(colors: seq<string>, i: nat, lo: int, hi: int)
    requires AllColours(colors) && i < 3 && 0 <= lo <= hi <= 255
    requires exists j :: 0 <= j < |colors| && colors[j] != ""
    requires ChannelWithin(colors, i, lo, hi)
    ensures var r := MixMany(colors); r != "" && lo <= Ch(HexToRgb(r).value, i) <= hi
  {
    var ps := ParseAll(NonEmpty(colors));
    MixManyChannel(colors, i);
    ParsedWithin(colors, i, lo, hi);
    MeanChBetween(ps, i, lo, hi);
  }

  /** With some non-empty input, each channel of mix_many is the clamped floor of the channel mean. */
  lemma MixManyChannel(colors: seq<string>, i: nat)
    requires AllColours(colors) && i < 3
    requires exists j :: 0 <= j < |colors| && colors[j] != ""
    ensures var ps := ParseAll(NonEmpty(colors));
      && ps != [] && MixMany(colors) != ""
      && Ch(HexToRgb(MixMany(colors)).value, i) == Clamp(SumCh(ps, i) / |ps|)
  {
    var ps := ParseAll(NonEmpty(colors));
    MixManyValue(colors);
    ClampChannel(MeanRgb(ps), i);
  }

  /** The parsed non-empty colours respect the bounds the inputs respect. */
  lemma ParsedWithin(colors: seq<string>, i: nat, lo: int, hi: int)
    requires AllColours(colors) && i < 3
    requires ChannelWithin(colors, i, lo, hi)
    ensures var ps := ParseAll(NonEmpty(colors));
      forall j :: 0 <= j < |ps| ==> lo <= Ch(ps[j], i) <= hi
  {
    var cols := NonEmpty(colors);
    var ps := ParseAll(cols);
    NonEmptyWithin(colors, i, lo, hi);
    forall j | 0 <= j < |ps| ensures lo <= Ch(ps[j], i) <= hi {
      assert ps[j] == HexToRgb(cols[j]).value;
    }
  }

  /** With some non-empty input, mix_many is the hex of the floored channel means. */
  lemma MixManyValue(colors: seq<string>)
    requires AllColours(colors)
    requires exists j :: 0 <= j < |colors| && colors[j] != ""
    ensures var ps := ParseAll(NonEmpty(colors));
      ps != [] && MixMany(colors) == RgbToHex(MeanRgb(ps))
  {
  }

  /**
   * mix_many of two non-empty colours is mix_two at a = 0.5: both floor the
   * channel sums halved, so the two averages of the module agree.
   */
  lemma MixManyPair(c1: string, c2: string)
    requires c1 != "" && c2 != "" && IsColour(c1) && IsColour(c2)
    ensures AllColours([c1, c2]) && MixMany([c1, c2]) == MixTwo(c1, c2, 0.5)
  {
    var p, q := HexToRgb(c1).value, HexToRgb(c2).value;
    MixManyOfPair(c1, c2);
    MixTwoOfPair(c1, c2);
    MeanOfPair(p, q);
    HalfLerpRgb(p, q);
  }

  lemma MixManyOfPair(c1: string, c2: string)
    requires c1 != "" && c2 != "" && IsColour(c1) && IsColour(c2)
    ensures AllColours([c1, c2]) && MixMany([c1, c2]) == RgbToHex(MeanRgb([HexToRgb(c1).value, HexToRgb(c2).value]))
  {
    ParsePair(c1, c2);
  }

  lemma MixTwoOfPair(c1: string, c2: string)
    requires c1 != "" && c2 != "" && IsColour(c1) && IsColour(c2)
    ensures var p, q := HexToRgb(c1).value, HexToRgb(c2).value;
      MixTwo(c1, c2, 0.5) == RgbToHex(Rgb(Lerp(p.r, q.r, 0.5), Lerp(p.g, q.g, 0.5), Lerp(p.b, q.b, 0.5)))
  {
  }

  lemma HalfLerpRgb(p: Rgb, q: Rgb)
    requires InRange(p) && InRange(q)
    ensures Rgb(Lerp(p.r, q.r, 0.5), Lerp(p.g, q.g, 0.5), Lerp(p.b, q.b, 0.5))
         == Rgb((p.r + q.r) / 2, (p.g + q.g) / 2, (p.b + q.b) / 2)
  {
    HalfLerp(p.r, q.r); HalfLerp(p.g, q.g); HalfLerp(p.b, q.b);
  }

  lemma ParsePair(c1: string, c2: string)
    requires c1 != "" && c2 != "" && IsColour(c1) && IsColour(c2)
    ensures AllColours([c1, c2]) && NonEmpty([c1, c2]) == [c1, c2]
    ensures ParseAll([c1, c2]) == [HexToRgb(c1).value, HexToRgb(c2).value]
  {
    var cs := [c1, c2];
    assert cs[1..] == [c2] && cs[1..][1..] == [];
  }

  lemma MeanOfPair(p: Rgb, q: Rgb)
    ensures MeanRgb([p, q]) == Rgb((p.r + q.r) / 2, (p.g + q.g) / 2, (p.b + q.b) / 2)
  {
    var ps := [p, q];
    assert ps[1..] == [q] && ps[1..][1..] == [];
    forall i | 0 <= i < 3 ensures SumCh(ps, i) == Ch(p, i) + Ch(q, i) {
      assert SumCh(ps[1..][1..], i) == 0;
      assert SumCh(ps[1..], i) == Ch(q, i);
    }
  }

  /** A channel within [lo, hi] of [0, 255] survives the hex round trip. */
  lemma ClampChannel(k: Rgb, i: nat)
    requires i < 3
    ensures Ch(HexToRgb(RgbToHex(k)).value, i) == Clamp(Ch(k, i))
  {
  }

  // ------------------------------------------------------- mix_weighted

  datatype Weighted = Weighted(c: Rgb, w: real)

  predicate PositiveWeights(ps: seq<Weighted>) {
    forall j :: 0 <= j < |ps| ==> ps[j].w > 0.0
  }

  /**
   * The (colour, weight) pairs mix_weighted keeps: zip() stops at the shorter
   * list; pairs with an empty colour or a weight <= 0 are dropped.
   */
  function Contributing(colors: seq<string>, weights: seq<real>): (ps: seq<Weighted>)
    requires AllColours(colors)
    ensures PositiveWeights(ps)
    ensures forall j :: 0 <= j < |ps| ==> InRange(ps[j].c)
    ensures ps == [] <==>
      forall j :: 0 <= j < |colors| && j < |weights| ==> colors[j] == "" || weights[j] <= 0.0
    decreases |colors|
  {
    if |colors| == 0 || |weights| == 0 then []
    else
      var rest := Contributing(colors[1..], weights[1..]);
      if colors[0] != "" && weights[0] > 0.0 then
        [Weighted(HexToRgb(colors[0]).value, weights[0])] + rest
      else rest
  }

  function SumWeights(ps: seq<Weighted>): real {
    if ps == [] then 0.0 else ps[0].w + SumWeights(ps[1..])
  }

  /** One pair's contribution to a channel's weighted sum. */
  function Term(p: Weighted, i: nat): real
    requires i < 3
  {
    Ch(p.c, i) as real * p.w
  }

  function SumWeighted(ps: seq<Weighted>, i: nat): real
    requires i < 3
  {
    if ps == [] then 0.0 else Term(ps[0], i) + SumWeighted(ps[1..], i)
  }

  /**
   * Python 3's round(): nearest integer, halves to the even neighbour.
   */
  function RoundHalfEven(x: real): (n: int)
    ensures -0.5 <= x - n as real <= 0.5
    ensures x - x.Floor as real != 0.5 ==> -0.5 < x - n as real < 0.5
    ensures x - x.Floor as real == 0.5 ==> n % 2 == 0
  {
    var f := x.Floor;
    var d := x - f as real;
    if d < 0.5 then f
    else if d > 0.5 then f + 1
    else if f % 2 == 0 then f
    else f + 1
  }

  lemma RoundHalfEvenBetween(x: real, lo: int, hi: int)
    requires lo as real <= x <= hi as real
    ensures lo <= RoundHalfEven(x) <= hi
  {
  }

  lemma {:induction false} SumWeightsPositive(ps: seq<Weighted>)
    requires PositiveWeights(ps)
    ensures ps != [] ==> SumWeights(ps) > 0.0
    ensures SumWeights(ps) >= 0.0
  {
    if ps != [] {
      SumWeightsPositive(ps[1..]);
    }
  }

  /** One channel of the weighted mean, rounded as Python's round() does. */
  function Ratio(ps: seq<Weighted>, i: nat): real
    requires i < 3 && SumWeights(ps) > 0.0
  {
    SumWeighted(ps, i) / SumWeights(ps)
  }

  function Mean(ps: seq<Weighted>, i: nat): int
    requires i < 3 && SumWeights(ps) > 0.0
  {
    RoundHalfEven(Ratio(ps, i))
  }

  /**
   * mix_weighted: the weighted mean per channel, rounded half to even;
   * "" exactly when no pair survives the filter.
   */
  function MixWeighted(colors: seq<string>, weights: seq<real>): (r: string)
    requires AllColours(colors)
    ensures r == "" <==> Contributing(colors, weights) == []
    ensures r != "" ==> IsCanonicalHex(r)
  {
    var ps := Contributing(colors, weights);
    if ps == [] then ""
    else
      SumWeightsPositive(ps);
      RgbToHex(Rgb(Mean(ps, 0), Mean(ps, 1), Mean(ps, 2)))
  }

  lemma MulLe(a: real, b: real, w: real)
    requires a <= b && w >= 0.0
    ensures a * w <= b * w
  {
  }

  lemma Distrib(l: real, w: real, t: real)
    ensures l * (w + t) == l * w + l * t
  {
  }

  /** A term lies between the weight times the channel's bounds. */
  lemma TermBounds(p: Weighted, i: nat, l: real, h: real)
    requires i < 3 && p.w >= 0.0 && l <= Ch(p.c, i) as real <= h
    ensures l * p.w <= Term(p, i) <= h * p.w
  {
    MulLe(l, Ch(p.c, i) as real, p.w);
    MulLe(Ch(p.c, i) as real, h, p.w);
  }

  /** One step of the weighted-sum bounds, over plain numbers. */
  lemma SumBoundsStep(l: real, h: real, m: real, w: real, t: real, u: real)
    requires l * w <= m <= h * w && l * t <= u <= h * t
    ensures l * (w + t) <= m + u <= h * (w + t)
  {
    Distrib(l, w, t);
    Distrib(h, w, t);
  }

  lemma {:induction false} SumWeightedBounds(ps: seq<Weighted>, i: nat, lo: int, hi: int)
    requires i < 3 && PositiveWeights(ps)
    requires forall j :: 0 <= j < |ps| ==> lo <= Ch(ps[j].c, i) <= hi
    ensures lo as real * SumWeights(ps) <= SumWeighted(ps, i)
    ensures SumWeighted(ps, i) <= hi as real * SumWeights(ps)
  {
    if ps != [] {
      var rest := ps[1..];
      assert forall j :: 0 <= j < |rest| ==> rest[j] == ps[j + 1];
      SumWeightedBounds(rest, i, lo, hi);
      TermBounds(ps[0], i, lo as real, hi as real);
      SumBoundsStep(lo as real, hi as real, Term(ps[0], i), ps[0].w, SumWeights(rest), SumWeighted(rest, i));
    }
  }

  lemma DivRealBetween(s: real, sw: real, lo: real, hi: real)
    requires sw > 0.0 && lo * sw <= s <= hi * sw
    ensures lo <= s / sw <= hi
  {
  }

  lemma MeanBetween(ps: seq<Weighted>, i: nat, lo: int, hi: int)
    requires i < 3 && PositiveWeights(ps) && ps != []
    requires forall j :: 0 <= j < |ps| ==> lo <= Ch(ps[j].c, i) <= hi
    ensures SumWeights(ps) > 0.0 && lo <= Mean(ps, i) <= hi
  {
    SumWeightsPositive(ps);
    SumWeightedBounds(ps, i, lo, hi);
    MeanOfBounds(ps, i, lo, hi);
  }

  lemma MeanOfBounds(ps: seq<Weighted>, i: nat, lo: int, hi: int)
    requires i < 3 && SumWeights(ps) > 0.0
    requires lo as real * SumWeights(ps) <= SumWeighted(ps, i) <= hi as real * SumWeights(ps)
    ensures lo <= Mean(ps, i) <= hi
  {
    RoundedRatioBetween(SumWeighted(ps, i), SumWeights(ps), lo, hi);
  }

  lemma RoundedRatioBetween(s: real, sw: real, lo: int, hi: int)
    requires sw > 0.0 && lo as real * sw <= s <= hi as real * sw
    ensures lo <= RoundHalfEven(s / sw) <= hi
  {
    DivRealBetween(s, sw, lo as real, hi as real);
    RoundHalfEvenBetween(s / sw, lo, hi);
  }

  /**
   * Each channel of the weighted mix lies within any bounds that all
   * contributing channels respect (in particular between their minimum and
   * maximum).
   */
  lemma MixWeightedBetween(colors: seq<string>, weights: seq<real>, i: nat, lo: int, hi: int)
    requires AllColours(colors)
    requires i < 3 && 0 <= lo <= hi <= 255
    requires Contributing(colors, weights) != []
    requires var ps := Contributing(colors, weights);
             forall j :: 0 <= j < |ps| ==> lo <= Ch(ps[j].c, i) <= hi
    ensures var r := MixWeighted(colors, weights); r != "" && lo <= Ch(HexToRgb(r).value, i) <= hi
  {
    var ps := Contributing(colors, weights);
    MeanBetween(ps, i, lo, hi);
    var k := Rgb(Mean(ps, 0), Mean(ps, 1), Mean(ps, 2));
    assert Ch(ClampRgb(k), i) == Clamp(Ch(k, i));
  }

  /** `k * w`, kept behind a name so that list reasoning does not see a product. */
  function Scaled(k: real, w: real): real {
    k * w
  }

  function ScaleWeights(ws: seq<real>, k: real): (r: seq<real>)
    ensures |r| == |ws| && forall j :: 0 <= j < |ws| ==> r[j] == Scaled(k, ws[j])
  {
    if ws == [] then [] else [Scaled(k, ws[0])] + ScaleWeights(ws[1..], k)
  }

  function ScalePairs(ps: seq<Weighted>, k: real): seq<Weighted> {
    if ps == [] then [] else [Weighted(ps[0].c, Scaled(k, ps[0].w))] + ScalePairs(ps[1..], k)
  }

  lemma PositiveProduct(k: real, w: real)
    requires k > 0.0
    ensures Scaled(k, w) > 0.0 <==> w > 0.0
  {
  }

  lemma ScaleWeightsCons(weights: seq<real>, k: real)
    requires weights != []
    ensures ScaleWeights(weights, k)[0] == Scaled(k, weights[0])
    ensures ScaleWeights(weights, k)[1..] == ScaleWeights(weights[1..], k)
  {
  }

  lemma ScalePairsCons(x: Weighted, rest: seq<Weighted>, k: real)
    ensures ScalePairs([x] + rest, k) == [Weighted(x.c, Scaled(k, x.w))] + ScalePairs(rest, k)
  {
    var xs := [x] + rest;
    assert xs[0] == x;
    assert xs[1..] == rest;
  }

  lemma ContributingCons(colors: seq<string>, weights: seq<real>)
    requires AllColours(colors) && colors != [] && weights != []
    ensures AllColours(colors[1..])
    ensures colors[0] != "" && weights[0] > 0.0 ==>
      Contributing(colors, weights) ==
        [Weighted(HexToRgb(colors[0]).value, weights[0])] + Contributing(colors[1..], weights[1..])
    ensures !(colors[0] != "" && weights[0] > 0.0) ==>
      Contributing(colors, weights) == Contributing(colors[1..], weights[1..])
  {
  }

  lemma {:induction false} ContributingScaled(colors: seq<string>, weights: seq<real>, k: real)
    requires AllColours(colors)
    requires k > 0.0
    ensures Contributing(colors, ScaleWeights(weights, k)) == ScalePairs(Contributing(colors, weights), k)
    decreases |colors|
  {
    if |colors| > 0 && |weights| > 0 {
      var sw := ScaleWeights(weights, k);
      ScaleWeightsCons(weights, k);
      ContributingCons(colors, weights);
      ContributingCons(colors, sw);
      ContributingScaled(colors[1..], weights[1..], k);
      PositiveProduct(k, weights[0]);
      if colors[0] != "" && weights[0] > 0.0 {
        ScalePairsCons(Weighted(HexToRgb(colors[0]).value, weights[0]), Contributing(colors[1..], weights[1..]), k);
      }
    }
  }

  lemma WeightStep(w: real, k: real, b: real)
    ensures Scaled(k, w) + k * b == k * (w + b)
  {
  }

  lemma TermStep(x: real, w: real, k: real, a: real)
    ensures x * Scaled(k, w) + k * a == k * (x * w + a)
  {
  }

  lemma {:induction false} WeightsScaled(ps: seq<Weighted>, k: real)
    ensures SumWeights(ScalePairs(ps, k)) == k * SumWeights(ps)
  {
    if ps != [] {
      WeightsScaled(ps[1..], k);
      var qs := ScalePairs(ps, k);
      assert qs[0].w == Scaled(k, ps[0].w);
      assert qs[1..] == ScalePairs(ps[1..], k);
      WeightStep(ps[0].w, k, SumWeights(ps[1..]));
    }
  }

  lemma {:induction false} WeightedScaled(ps: seq<Weighted>, k: real, i: nat)
    requires i < 3
    ensures SumWeighted(ScalePairs(ps, k), i) == k * SumWeighted(ps, i)
  {
    if ps != [] {
      WeightedScaled(ps[1..], k, i);
      var x, w := Ch(ps[0].c, i) as real, ps[0].w;
      var qs := ScalePairs(ps, k);
      assert qs[0] == Weighted(ps[0].c, Scaled(k, w));
      assert qs[1..] == ScalePairs(ps[1..], k);
      assert Term(qs[0], i) == x * Scaled(k, w);
      TermStep(x, w, k, SumWeighted(ps[1..], i));
    }
  }

  lemma RatioScaled(a: real, b: real, k: real, ka: real, kb: real)
    requires b > 0.0 && k > 0.0 && ka == k * a && kb == k * b
    ensures kb > 0.0 && ka / kb == a / b
  {
  }

  lemma {:induction false} ScalePairsPositive(ps: seq<Weighted>, k: real)
    requires PositiveWeights(ps) && k > 0.0
    ensures PositiveWeights(ScalePairs(ps, k)) && |ScalePairs(ps, k)| == |ps|
  {
    if ps != [] {
      ScalePairsPositive(ps[1..], k);
      PositiveProduct(k, ps[0].w);
    }
  }

  lemma RatioOfScaled(ps: seq<Weighted>, k: real, i: nat)
    requires i < 3 && PositiveWeights(ps) && ps != [] && k > 0.0
    ensures SumWeights(ps) > 0.0 && SumWeights(ScalePairs(ps, k)) > 0.0
    ensures Ratio(ScalePairs(ps, k), i) == Ratio(ps, i)
  {
    var qs := ScalePairs(ps, k);
    SumWeightsPositive(ps);
    ScalePairsPositive(ps, k);
    SumWeightsPositive(qs);
    WeightsScaled(ps, k);
    WeightedScaled(ps, k, i);
    RatioScaled(SumWeighted(ps, i), SumWeights(ps), k, SumWeighted(qs, i), SumWeights(qs));
    RatioOfQuotients(ps, qs, i);
  }

  lemma RatioOfQuotients(ps: seq<Weighted>, qs: seq<Weighted>, i: nat)
    requires i < 3 && SumWeights(ps) > 0.0 && SumWeights(qs) > 0.0
    requires SumWeighted(qs, i) / SumWeights(qs) == SumWeighted(ps, i) / SumWeights(ps)
    ensures Ratio(qs, i) == Ratio(ps, i)
  {
  }

  lemma MeanScaled(ps: seq<Weighted>, k: real, i: nat)
    requires i < 3 && PositiveWeights(ps) && ps != [] && k > 0.0
    ensures SumWeights(ps) > 0.0 && SumWeights(ScalePairs(ps, k)) > 0.0
    ensures Mean(ScalePairs(ps, k), i) == Mean(ps, i)
  {
    RatioOfScaled(ps, k, i);
  }

  /**
   * In exact arithmetic the weighted mix does not change when every weight
   * is multiplied by the same positive constant.
   */
  lemma MixWeightedScaleInvariant(colors: seq<string>, weights: seq<real>, k: real)
    requires AllColours(colors)
    requires k > 0.0
    ensures MixWeighted(colors, ScaleWeights(weights, k)) == MixWeighted(colors, weights)
  {
    var ps := Contributing(colors, weights);
    ContributingScaled(colors, weights, k);
    if ps != [] {
      ScalePairsPositive(ps, k);
      MeanScaled(ps, k, 0);
      MeanScaled(ps, k, 1);
      MeanScaled(ps, k, 2);
    }
  }
}
