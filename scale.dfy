/**
 * Figure and scale arithmetic of the styler: the constructor's checks on
 * the figure settings, unit conversion to millimetres, the usable content
 * width, and the denominator N of the 1:N scale that fits the measured map
 * width into that content width, optionally rounded to a "nice" value
 * 1, 2, 2.5, 5 or 10 times a power of ten.
 *
 * Floating point is modelled by exact reals; the map width in metres is an
 * input (it comes from projecting the data, which is not part of this model).
 */
module Scale {
  import opened Common
  import Colour

  /** Why a setting or a conversion is refused. */
  datatype ScaleError =
    | BadWidthUnit | BadMarginUnit | PxNeedsDpi | BadRoundTo | BadRoundMode | BadMinArea
    | BadUnit | BadMapWidth

  datatype Result<T> = Ok(value: T) | Err(error: ScaleError)

  /** The figure settings the styler keeps and passes to width_to_scale. */
  datatype Figure = Figure(
    figWidth: real,
    widthUnit: string,
    dpi: Option<int>,
    margin: real,
    marginUnit: string,
    roundTo: Option<string>,
    roundMode: string,
    minAreaMm2: real)

  const Units: set<string> := {"mm", "cm", "in", "px"}

  /** The constructor's checks, in its order; None when every check passes. */
  function Validate(f: Figure): (e: Option<ScaleError>)
    ensures e == None <==>
      f.widthUnit in Units && f.marginUnit in Units
      && (f.widthUnit == "px" ==> f.dpi.Some? && f.dpi.value > 0)
      && (f.roundTo == None || f.roundTo == Some("nice"))
      && (f.roundMode == "ceil" || f.roundMode == "nearest")
      && f.minAreaMm2 > 0.0
  {
    if f.widthUnit !in Units then Some(BadWidthUnit)
    else if f.marginUnit !in Units then Some(BadMarginUnit)
    else if f.widthUnit == "px" && (f.dpi.None? || f.dpi.value <= 0) then Some(PxNeedsDpi)
    else if f.roundTo != None && f.roundTo != Some("nice") then Some(BadRoundTo)
    else if f.roundMode != "ceil" && f.roundMode != "nearest" then Some(BadRoundMode)
    else if f.minAreaMm2 <= 0.0 then Some(BadMinArea)
    else None
  }

  // ------------------------------------------------------------------ _to_mm

  /** Millimetres per unit for the names _to_mm knows (after lower-casing); 0 for pixels without a usable dpi. */
  function MmPer(u: string, dpi: Option<int>): real {
    if u in {"mm", "millimeter", "millimeters"} then 1.0
    else if u in {"cm", "centimeter", "centimeters"} then 10.0
    else if u in {"in", "inch", "inches"} then 25.4
    else if u in {"px", "pixel", "pixels"} && dpi.Some? && dpi.value > 0 then 25.4 / dpi.value as real
    else 0.0
  }

  predicate PxName(u: string) {
    u in {"px", "pixel", "pixels"}
  }

  predicate KnownUnit(u: string) {
    u in {"mm", "millimeter", "millimeters", "cm", "centimeter", "centimeters", "in", "inch", "inches"} || PxName(u)
  }

  /**
   * _to_mm: a length in the named unit (any case) in millimetres; pixels
   * need a positive dpi and unknown names are refused.
   */
  function ToMm(value: real, unit: string, dpi: Option<int>): (r: Result<real>)
    ensures r.Ok? <==> KnownUnit(Lower(unit)) && (PxName(Lower(unit)) ==> dpi.Some? && dpi.value > 0)
    ensures r.Ok? ==> MmPer(Lower(unit), dpi) > 0.0 && r.value == value * MmPer(Lower(unit), dpi)
    ensures r.Err? ==> (r.error == PxNeedsDpi <==> PxName(Lower(unit)))
  {
    var u := Lower(unit);
    if u in {"mm", "millimeter", "millimeters"} then Ok(value)
    else if u in {"cm", "centimeter", "centimeters"} then Ok(value * 10.0)
    else if u in {"in", "inch", "inches"} then Ok(value * 25.4)
    else if u in {"px", "pixel", "pixels"} then
      if dpi.None? || dpi.value <= 0 then Err(PxNeedsDpi)
      else
        assert 25.4 / dpi.value as real > 0.0;
        Ok(value * 25.4 / dpi.value as real)
    else Err(BadUnit)
  }

  lemma LowerOfUnit(u: string)
    requires u in Units
    ensures Lower(u) == u
  {
    assert u == "mm" || u == "cm" || u == "in" || u == "px";
  }

  /**
   * A figure the constructor accepts converts its width: its unit is one
   * _to_mm knows and a pixel width comes with a positive dpi.
   */
  lemma ValidWidthConverts(f: Figure, v: real)
    requires Validate(f) == None
    ensures ToMm(v, f.widthUnit, f.dpi).Ok?
  {
    LowerOfUnit(f.widthUnit);
  }

  /**
   * The constructor checks the dpi only for a pixel width: a margin in
   * pixels without a dpi passes it and is refused later by _to_mm.
   */
  lemma MarginPxNotChecked(f: Figure)
    requires f == Figure(180.0, "mm", None, 5.0, "px", Some("nice"), "ceil", 1.0)
    ensures Validate(f) == None && ToMm(f.margin, f.marginUnit, f.dpi) == Err(PxNeedsDpi)
  {
    LowerOfUnit("px");
  }

  // ----------------------------------------------------------- content width

  const MinContent: real := 0.000001

  /** The usable paper width: the paper less both margins, never below 1e-6 mm. */
  function ContentWidth(paperMm: real, marginMm: real): (c: real)
    ensures c > 0.0 && c >= paperMm - 2.0 * marginMm
    ensures c == paperMm - 2.0 * marginMm || c == MinContent
  {
    if paperMm - 2.0 * marginMm > MinContent then paperMm - 2.0 * marginMm else MinContent
  }

  // ---------------------------------------------------------------- log10

  function Pow10(k: int): (p: real)
    ensures p > 0.0
    decreases if k >= 0 then k else -k
  {
    if k == 0 then 1.0 else if k > 0 then 10.0 * Pow10(k - 1) else Pow10(k + 1) / 10.0
  }

  lemma Pow10Step(k: int)
    ensures Pow10(k + 1) == 10.0 * Pow10(k)
  {
  }

  lemma {:induction false} Pow10Mono(a: int, b: int)
    requires a <= b
    ensures Pow10(a) <= Pow10(b)
    decreases b - a
  {
    if a < b {
      Pow10Step(a);
      Pow10Mono(a + 1, b);
    }
  }

  /** floor(log10 n) for n >= 1. */
  function LogUp(n: real): nat
    requires n >= 1.0
    decreases n.Floor
  {
    if n < 10.0 then 0
    else
      assert (n / 10.0).Floor < n.Floor by {
        assert n / 10.0 <= n - 1.0;
      }
      1 + LogUp(n / 10.0)
  }

  /** -floor(log10 n) for 0 < n < 1. */
  function LogDown(n: real): nat
    requires 0.0 < n < 1.0
    decreases (1.0 / n).Floor
  {
    if n * 10.0 >= 1.0 then 1
    else
      assert (1.0 / (n * 10.0)).Floor < (1.0 / n).Floor by {
        var x := 1.0 / n;
        assert x > 10.0 by { assert x * n == 1.0; }
        assert 1.0 / (n * 10.0) == x / 10.0;
        assert x / 10.0 <= x - 1.0;
      }
      1 + LogDown(n * 10.0)
  }

  /** math.floor(math.log10(n)) in exact arithmetic. */
  function FloorLog10(n: real): int
    requires n > 0.0
  {
    if n >= 1.0 then LogUp(n) else -(LogDown(n) as int)
  }

  lemma {:induction false} LogUpBounds(n: real)
    requires n >= 1.0
    ensures Pow10(LogUp(n)) <= n < Pow10(LogUp(n) + 1)
    decreases n.Floor
  {
    if n >= 10.0 {
      var k := LogUp(n / 10.0);
      LogUpBounds(n / 10.0);
      Pow10Step(k);
      Pow10Step(k + 1);
    }
  }

  lemma {:induction false} LogDownBounds(n: real)
    requires 0.0 < n < 1.0
    ensures Pow10(-(LogDown(n) as int)) <= n < Pow10(-(LogDown(n) as int) + 1)
    decreases (1.0 / n).Floor
  {
    if n * 10.0 >= 1.0 {
      Pow10Step(-1);
    } else {
      var m: int := LogDown(n * 10.0);
      LogDownBounds(n * 10.0);
      assert Pow10(-m) <= n * 10.0 < Pow10(-m + 1);
      Pow10Step(-m - 1);
      assert LogDown(n) == m + 1;
    }
  }

  /** The power of ten FloorLog10 picks brackets n: 10^k <= n < 10^(k+1). */
  lemma FloorLog10Bounds(n: real)
    requires n > 0.0
    ensures Pow10(FloorLog10(n)) <= n < Pow10(FloorLog10(n) + 1)
  {
    if n >= 1.0 {
      LogUpBounds(n);
    } else {
      LogDownBounds(n);
    }
  }

  /** ... and it is the only exponent that does. */
  lemma FloorLog10Unique(n: real, k: int)
    requires n > 0.0 && Pow10(k) <= n < Pow10(k + 1)
    ensures FloorLog10(n) == k
  {
    var k0 := FloorLog10(n);
    FloorLog10Bounds(n);
    if k0 < k {
      Pow10Mono(k0 + 1, k);
    } else if k < k0 {
      Pow10Mono(k + 1, k0);
    }
  }

  // ------------------------------------------------------------ _round_nice

  const Steps: seq<real> := [1.0, 2.0, 2.5, 5.0, 10.0]

  /** The values the ceiling mode tries: each step times 10^k. */
  function CeilCandidates(p: real): seq<real> {
    [1.0 * p, 2.0 * p, 2.5 * p, 5.0 * p, 10.0 * p]
  }

  /** The nearest mode tries the steps and 10 once more. */
  function NearCandidates(p: real): seq<real> {
    CeilCandidates(p) + [10.0 * p]
  }

  function Ceil(x: real): (c: int)
    ensures x <= c as real < x + 1.0
  {
    -((-x).Floor)
  }

  function Dist(a: real, b: real): real {
    if a >= b then a - b else b - a
  }

  /** The index of the first value at least n, or |vals| when there is none. */
  function FirstAtLeast(vals: seq<real>, n: real): (i: nat)
    ensures i <= |vals|
  {
    if vals == [] then 0 else if vals[0] >= n then 0 else 1 + FirstAtLeast(vals[1..], n)
  }

  lemma {:induction false} FirstAtLeastIsFirst(vals: seq<real>, n: real)
    ensures var i := FirstAtLeast(vals, n);
      (i < |vals| ==> vals[i] >= n) && forall j :: 0 <= j < i ==> vals[j] < n
  {
    if vals != [] && vals[0] < n {
      FirstAtLeastIsFirst(vals[1..], n);
    }
  }

  /** The running best of the nearest mode: a later value replaces the best only when strictly closer. */
  function Nearest(vals: seq<real>, n: real): (i: nat)
    requires vals != []
    ensures i < |vals|
  {
    if |vals| == 1 then 0
    else
      var b := Nearest(Init(vals), n);
      if Dist(Last(vals), n) < Dist(vals[b], n) then |vals| - 1 else b
  }

  /** The nearest mode keeps the first value of least distance to n. */
  lemma {:induction false} NearestIsFirstClosest(vals: seq<real>, n: real)
    requires vals != []
    ensures var i := Nearest(vals, n);
      (forall j :: 0 <= j < |vals| ==> Dist(vals[i], n) <= Dist(vals[j], n))
      && (forall j :: 0 <= j < i ==> Dist(vals[i], n) < Dist(vals[j], n))
  {
    if |vals| > 1 {
      var init := Init(vals);
      NearestIsFirstClosest(init, n);
      assert forall j :: 0 <= j < |init| ==> init[j] == vals[j];
    }
  }

  /** What _round_nice returns. */
  function RoundNiceSpec(n: real, mode: string): int {
    if n <= 0.0 then 1
    else
      var p := Pow10(FloorLog10(n));
      if mode == "ceil" then
        var cs := CeilCandidates(p);
        var i := FirstAtLeast(cs, n);
        if i < |cs| then Ceil(cs[i]) else Colour.Trunc(Pow10(FloorLog10(n) + 1))
      else
        var cs := NearCandidates(p);
        Colour.RoundHalfEven(cs[Nearest(cs, n)])
  }

  /** _round_nice: the ceiling loop with its early return, or the nearest loop with its running best. */
  method RoundNice(n: real, mode: string) returns (r: int)
    ensures r == RoundNiceSpec(n, mode)
  {
    if n <= 0.0 {
      return 1;
    }
    var k := FloorLog10(n);
    var p := Pow10(k);
    if mode == "ceil" {
      var cs := CeilCandidates(p);
      var i := 0;
      while i < |cs|
        invariant 0 <= i <= |cs|
        invariant FirstAtLeast(cs, n) == i + FirstAtLeast(cs[i..], n)
      {
        assert cs[i..][1..] == cs[i + 1..];
        if cs[i] >= n {
          return Ceil(cs[i]);
        }
        i := i + 1;
      }
      return Colour.Trunc(Pow10(k + 1));
    }
    var cs := NearCandidates(p);
    var best := 0;
    var i := 1;
    while i < |cs|
      invariant 1 <= i <= |cs|
      invariant best == Nearest(cs[..i], n)
    {
      assert Init(cs[..i + 1]) == cs[..i] && Last(cs[..i + 1]) == cs[i];
      if Dist(cs[i], n) < Dist(cs[best], n) {
        best := i;
      }
      i := i + 1;
    }
    assert cs[..i] == cs;
    r := Colour.RoundHalfEven(cs[best]);
  }

  /**
   * In the ceiling mode the nice value is never below n and stays below
   * 2n + 1: consecutive steps are at most a factor 2 apart. The fallback
   * after the loop is never reached, as 10 * 10^k already exceeds n.
   */
  lemma RoundNiceCeilCovers(n: real)
    requires n > 0.0
    ensures var r := RoundNiceSpec(n, "ceil");
      n <= r as real < 2.0 * n + 1.0
    ensures FirstAtLeast(CeilCandidates(Pow10(FloorLog10(n))), n) < |Steps|
  {
    var p := Pow10(FloorLog10(n));
    FloorLog10Bounds(n);
    Pow10Step(FloorLog10(n));
    var cs := CeilCandidates(p);
    FirstAtLeastIsFirst(cs, n);
    var i := FirstAtLeast(cs, n);
    assert cs[4] > n;
    if i > 0 {
      assert cs[i] <= 2.0 * cs[i - 1];
    }
  }

  /**
   * In the nearest mode the result is the half-to-even rounding of the
   * first candidate closest to n.
   */
  lemma RoundNiceNearestClosest(n: real, mode: string)
    requires n > 0.0 && mode != "ceil"
    ensures var cs := NearCandidates(Pow10(FloorLog10(n)));
      var i := Nearest(cs, n);
      RoundNiceSpec(n, mode) == Colour.RoundHalfEven(cs[i])
      && (forall j :: 0 <= j < |cs| ==> Dist(cs[i], n) <= Dist(cs[j], n))
      && (forall j :: 0 <= j < i ==> Dist(cs[i], n) < Dist(cs[j], n))
  {
    var cs := NearCandidates(Pow10(FloorLog10(n)));
    NearestIsFirstClosest(cs, n);
  }

  lemma Pow10AtLeastOne(k: int)
    requires k >= 0
    ensures Pow10(k) >= 1.0
  {
    Pow10Mono(0, k);
  }

  /** For n >= 1 the nearest mode gives at least 1. */
  lemma RoundNiceNearestPositive(n: real, mode: string)
    requires n >= 1.0 && mode != "ceil"
    ensures RoundNiceSpec(n, mode) >= 1
  {
    var k := FloorLog10(n);
    Pow10AtLeastOne(k);
    var cs := NearCandidates(Pow10(k));
    var v := cs[Nearest(cs, n)];
    assert v >= 1.0;
    Colour.RoundHalfEvenBetween(v, 1, v.Floor + 1);
  }

  /**
   * Below 1 the nearest mode can give 0: for n = 0.7 the closest candidate
   * is 0.5, which rounds half-to-even to 0.
   */
  lemma RoundNiceNearestZero(n: real)
    requires n == 0.7
    ensures RoundNiceSpec(n, "nearest") == 0
  {
    assert LogDown(n) == 1;
    assert Pow10(-1) == 0.1;
    var cs := NearCandidates(0.1);
    assert cs == [0.1, 0.2, 0.25, 0.5, 1.0, 1.0];
    assert Nearest(cs[..1], n) == 0;
    assert cs[..2] == [0.1, 0.2] && Nearest(cs[..2], n) == 1;
    assert cs[..3] == [0.1, 0.2, 0.25] && Nearest(cs[..3], n) == 2;
    assert cs[..4] == [0.1, 0.2, 0.25, 0.5] && Nearest(cs[..4], n) == 3;
    assert cs[..5] == [0.1, 0.2, 0.25, 0.5, 1.0] && Nearest(cs[..5], n) == 3;
    assert Nearest(cs, n) == 3;
  }

  // ---------------------------------------------------------- width_to_scale

  /** The scale denominator, and the exact ratio it was rounded from. */
  datatype ScaleFit = ScaleFit(exact: real, n: int)

  /**
   * width_to_scale once the map width in metres is known: paper and margin
   * in millimetres, the content width in metres, the exact ratio map/content,
   * truncated, or rounded to a nice value.
   */
  function WidthToScale(f: Figure, mapWidthM: real): (r: Result<ScaleFit>)
    ensures r.Ok? ==> mapWidthM > 0.0 && r.value.exact > 0.0
    ensures r.Ok? && f.roundTo != Some("nice") ==> r.value.n == Colour.Trunc(r.value.exact)
    ensures r.Ok? && f.roundTo == Some("nice") ==> r.value.n == RoundNiceSpec(r.value.exact, f.roundMode)
  {
    var paper := ToMm(f.figWidth, f.widthUnit, f.dpi);
    var margin := if f.margin != 0.0 then ToMm(f.margin, f.marginUnit, f.dpi) else Ok(0.0);
    if paper.Err? then Err(paper.error)
    else if margin.Err? then Err(margin.error)
    else if mapWidthM <= 0.0 then Err(BadMapWidth)
    else
      var content := ContentWidth(paper.value, margin.value) / 1000.0;
      var exact := mapWidthM / content;
      assert exact > 0.0;
      Ok(ScaleFit(exact, if f.roundTo == Some("nice") then RoundNiceSpec(exact, f.roundMode) else Colour.Trunc(exact)))
  }

  lemma DivCover(w: real, c: real, e: real, n: real)
    requires w > 0.0 && c > 0.0 && e == w / c && n >= e
    ensures w / n <= c
  {
    assert e * c == w;
    assert n * c >= w;
  }

  /**
   * With nice rounding in the ceiling mode the map fits: drawn at 1:N it is
   * no wider than the content width (in metres).
   */
  lemma NiceCeilFits(f: Figure, mapWidthM: real)
    requires f.roundTo == Some("nice") && f.roundMode == "ceil"
    requires WidthToScale(f, mapWidthM).Ok?
    ensures var s := WidthToScale(f, mapWidthM).value;
      var paper := ToMm(f.figWidth, f.widthUnit, f.dpi).value;
      var margin := if f.margin != 0.0 then ToMm(f.margin, f.marginUnit, f.dpi).value else 0.0;
      s.n as real >= s.exact && mapWidthM / s.n as real <= ContentWidth(paper, margin) / 1000.0
  {
    var s := WidthToScale(f, mapWidthM).value;
    RoundNiceCeilCovers(s.exact);
    var paper := ToMm(f.figWidth, f.widthUnit, f.dpi).value;
    var margin := if f.margin != 0.0 then ToMm(f.margin, f.marginUnit, f.dpi).value else 0.0;
    DivCover(mapWidthM, ContentWidth(paper, margin) / 1000.0, s.exact, s.n as real);
  }

  /** Truncation keeps N within one of the exact ratio, never above it. */
  lemma TruncatedScale(f: Figure, mapWidthM: real)
    requires f.roundTo != Some("nice") && WidthToScale(f, mapWidthM).Ok?
    ensures var s := WidthToScale(f, mapWidthM).value;
      s.n as real <= s.exact < s.n as real + 1.0
  {
  }

  /**
   * The worked case: a 180 mm figure with 10 mm margins and a 27 km wide
   * map gives the exact ratio 168 750, rounded up to 1:200 000.
   */
  lemma WorkedExample(f: Figure)
    requires f == Figure(180.0, "mm", Some(300), 10.0, "mm", Some("nice"), "ceil", 1.0)
    ensures WidthToScale(f, 27000.0) == Ok(ScaleFit(168750.0, 200000))
  {
    LowerOfUnit("mm");
    assert ContentWidth(180.0, 10.0) == 160.0;
    var n := 168750.0;
    assert Pow10(5) == 100000.0 && Pow10(6) == 1000000.0;
    FloorLog10Unique(n, 5);
    var cs := CeilCandidates(100000.0);
    assert cs[0] < n && cs[1] >= n;
    assert FirstAtLeast(cs, n) == 1 by {
      assert cs[1..][0] == cs[1];
    }
  }
}
