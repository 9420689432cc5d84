/**
 * The pure helpers of the map plot: the 1-2-5 grid step, the label a
 * group gets on the map, and the order in which groups are drawn and
 * listed in the legend. Rendering itself is not modelled.
 */
module Plotting {
  import opened Common
  import opened Scale

  // -------------------------------------------------------------- grid step

  /** The 1-2-5 multiplier for a mantissa in [1, 10). */
  function StepFor(frac: real): real {
    if frac < 1.5 then 1.0 else if frac < 3.0 then 2.0 else if frac < 7.0 then 5.0 else 10.0
  }

  /** _nice_step: a 1, 2, 5 or 10 times a power of ten near span / target; 1.0 for a span that is not positive. */
  function NiceStep(span: real, target: int): (r: real)
    ensures r > 0.0
  {
    if span <= 0.0 then 1.0
    else
      var raw := span / (if target > 1 then target else 1) as real;
      var p := Pow10(FloorLog10(raw));
      StepFor(raw / p) * p
  }

  lemma MulBelow(a: real, b: real, p: real)
    requires a < b && p > 0.0
    ensures a * p < b * p
  {
  }

  lemma MulAtMost(a: real, b: real, p: real)
    requires a <= b && p > 0.0
    ensures a * p <= b * p
  {
  }

  /** A value between p and 10p has its mantissa in [1, 10). */
  lemma Mantissa(raw: real, p: real)
    requires p > 0.0 && p <= raw < 10.0 * p
    ensures 1.0 <= raw / p < 10.0
  {
    var f := raw / p;
    assert f * p == raw;
    if f < 1.0 { MulBelow(f, 1.0, p); }
    if f >= 10.0 { MulAtMost(10.0, f, p); }
  }

  /** Bounds on a multiplier of the mantissa carry over to the value. */
  lemma StepScaled(raw: real, p: real, k: real)
    requires p > 0.0 && (2.0 / 3.0) * (raw / p) < k <= (5.0 / 3.0) * (raw / p)
    ensures (2.0 / 3.0) * raw < k * p <= (5.0 / 3.0) * raw
    ensures (k * p) / p == k
  {
    var f := raw / p;
    assert f * p == raw;
    MulBelow((2.0 / 3.0) * f, k, p);
    MulAtMost(k, (5.0 / 3.0) * f, p);
    assert ((2.0 / 3.0) * f) * p == (2.0 / 3.0) * (f * p);
    assert ((5.0 / 3.0) * f) * p == (5.0 / 3.0) * (f * p);
  }

  /** The mantissa's step is within a factor of 2/3 to 5/3 of the mantissa. */
  lemma StepForNear(frac: real)
    requires 1.0 <= frac < 10.0
    ensures (2.0 / 3.0) * frac < StepFor(frac) <= (5.0 / 3.0) * frac
    ensures StepFor(frac) in {1.0, 2.0, 5.0, 10.0}
  {
  }

  /**
   * For a positive span the step is a 1-2-5 multiple of the power of ten
   * just below span / target, and lies strictly above two thirds and at
   * most five thirds of span / target.
   */
  lemma NiceStepNearRaw(span: real, target: int)
    requires span > 0.0
    ensures var raw := span / (if target > 1 then target else 1) as real;
      var e := FloorLog10(raw);
      && Pow10(e) <= raw < Pow10(e + 1)
      && NiceStep(span, target) / Pow10(e) in {1.0, 2.0, 5.0, 10.0}
      && (2.0 / 3.0) * raw < NiceStep(span, target) <= (5.0 / 3.0) * raw
  {
    var raw := span / (if target > 1 then target else 1) as real;
    var e := FloorLog10(raw);
    var p := Pow10(e);
    FloorLog10Bounds(raw);
    Pow10Step(e);
    StepNear(raw, p);
    assert NiceStep(span, target) == StepFor(raw / p) * p;
  }

  /** The step chosen for a value between p and 10p, as a multiple of p and relative to the value. */
  lemma StepNear(raw: real, p: real)
    requires p > 0.0 && p <= raw < 10.0 * p
    ensures var s := StepFor(raw / p) * p;
      s / p in {1.0, 2.0, 5.0, 10.0} && (2.0 / 3.0) * raw < s <= (5.0 / 3.0) * raw
  {
    Mantissa(raw, p);
    StepForNear(raw / p);
    StepScaled(raw, p, StepFor(raw / p));
  }

  // ------------------------------------------------------------------ labels

  /** The length of a Cambrian marker C[_-]?CORTADO_? (any case) at the start of s, or 0. */
  function MarkLen(s: string): (m: nat)
    ensures m <= |s|
    ensures m > 0 ==> m >= 8
  {
    if s == [] || LowerChar(s[0]) != 'c' then 0
    else
      var body :=
        if |s| >= 2 && (s[1] == '_' || s[1] == '-') && StartsWith(Lower(s[2..]), "cortado") then 9
        else if StartsWith(Lower(s[1..]), "cortado") then 8
        else 0;
      if body == 0 then 0 else if body < |s| && s[body] == '_' then body + 1 else body
  }

  /** re.sub of the Cambrian marker by 'Є', scanning left to right. */
  function Cambrian(s: string): (r: string)
    ensures |r| <= |s|
  {
    if s == [] then []
    else
      var m := MarkLen(s);
      if m > 0 then "Є" + Cambrian(s[m..]) else [s[0]] + Cambrian(s[1..])
  }

  /** Text without a Cambrian marker anywhere is left as it is. */
  lemma {:induction false} CambrianUnmarked(s: string)
    requires forall i :: 0 <= i < |s| ==> MarkLen(s[i..]) == 0
    ensures Cambrian(s) == s
  {
    if s != [] {
      assert MarkLen(s[0..]) == 0 && s[0..] == s;
      assert forall i :: 0 <= i < |s[1..]| ==> s[1..][i..] == s[i + 1..];
      CambrianUnmarked(s[1..]);
    }
  }

  /** s.replace("|", "").replace("_", ""). */
  function RemoveSeparators(s: string): (r: string)
    ensures Avoids(r, '|') && Avoids(r, '_')
    ensures |r| <= |s|
  {
    if s == [] then []
    else (if s[0] == '|' || s[0] == '_' then [] else [s[0]]) + RemoveSeparators(s[1..])
  }

  /** re.sub(k, v, s, flags=re.IGNORECASE) for a lower-case literal k. */
  function ReplaceCI(s: string, k: string, v: string): (r: string)
    requires k != []
    decreases |s|
  {
    if |s| < |k| then s
    else if Lower(s[..|k|]) == k then v + ReplaceCI(s[|k|..], k, v)
    else [s[0]] + ReplaceCI(s[1..], k, v)
  }

  /** Every occurrence of the character c written back as k. */
  function Restore(t: string, c: char, k: string): string {
    if t == [] then [] else (if t[0] == c then k else [t[0]]) + Restore(t[1..], c, k)
  }

  lemma LowerConcat(a: string, b: string)
    ensures Lower(a + b) == Lower(a) + Lower(b)
  {
    assert forall i :: 0 <= i < |a + b| ==> Lower(a + b)[i] == (Lower(a) + Lower(b))[i];
  }

  lemma {:induction false} RestoreConcat(a: string, b: string, c: char, k: string)
    ensures Restore(a + b, c, k) == Restore(a, c, k) + Restore(b, c, k)
    decreases |a|
  {
    if a != [] {
      var h := if a[0] == c then k else [a[0]];
      assert (a + b)[0] == a[0] && (a + b)[1..] == a[1..] + b;
      assert Restore(a + b, c, k) == h + Restore(a[1..] + b, c, k);
      RestoreConcat(a[1..], b, c, k);
      assert Restore(a, c, k) == h + Restore(a[1..], c, k);
    } else {
      assert a + b == b;
    }
  }

  /** Round trips of two pieces make a round trip of their concatenation. */
  lemma RoundTripJoin(pre: string, preOut: string, tail: string, tailOut: string, c: char, k: string)
    requires Lower(Restore(preOut, c, k)) == Lower(pre) && Lower(Restore(tailOut, c, k)) == Lower(tail)
    ensures Lower(Restore(preOut + tailOut, c, k)) == Lower(pre + tail)
  {
    RestoreConcat(preOut, tailOut, c, k);
    LowerConcat(Restore(preOut, c, k), Restore(tailOut, c, k));
    LowerConcat(pre, tail);
  }

  lemma RestoreSymbol(c: char, k: string)
    ensures Restore([c], c, k) == k
  {
    assert Restore([c], c, k) == k + Restore([], c, k);
  }

  lemma RestoreOther(x: char, c: char, k: string)
    requires x != c
    ensures Restore([x], c, k) == [x]
  {
    assert Restore([x], c, k) == [x] + Restore([], c, k);
  }

  lemma SplitAt(s: string, n: nat)
    requires n <= |s|
    ensures s == s[..n] + s[n..]
  {
  }

  /** The round trip through a replaced occurrence at the front. */
  lemma {:induction false} RoundTripMatch(s: string, k: string, c: char)
    requires k != [] && Lower(k) == k && |s| >= |k| && Lower(s[..|k|]) == k
    requires Lower(Restore(ReplaceCI(s[|k|..], k, [c]), c, k)) == Lower(s[|k|..])
    ensures Lower(Restore(ReplaceCI(s, k, [c]), c, k)) == Lower(s)
  {
    var pre, tail := s[..|k|], s[|k|..];
    var tailOut := ReplaceCI(tail, k, [c]);
    ReplaceMatch(s, k, [c]);
    RestoreSymbol(c, k);
    RoundTripJoin(pre, [c], tail, tailOut, c, k);
    SplitAt(s, |k|);
  }

  lemma ReplaceMatch(s: string, k: string, v: string)
    requires k != [] && |s| >= |k| && Lower(s[..|k|]) == k
    ensures ReplaceCI(s, k, v) == v + ReplaceCI(s[|k|..], k, v)
  {
  }

  lemma ReplaceCopy(s: string, k: string, v: string)
    requires k != [] && |s| >= |k| && Lower(s[..|k|]) != k
    ensures ReplaceCI(s, k, v) == [s[0]] + ReplaceCI(s[1..], k, v)
  {
  }

  /** The round trip through a character copied at the front. */
  lemma {:induction false} RoundTripCopy(s: string, k: string, c: char)
    requires k != [] && |s| >= |k| && Lower(s[..|k|]) != k && s[0] != c
    requires Lower(Restore(ReplaceCI(s[1..], k, [c]), c, k)) == Lower(s[1..])
    ensures Lower(Restore(ReplaceCI(s, k, [c]), c, k)) == Lower(s)
  {
    var pre, tail := [s[0]], s[1..];
    var tailOut := ReplaceCI(tail, k, [c]);
    ReplaceCopy(s, k, [c]);
    RestoreOther(s[0], c, k);
    RoundTripJoin(pre, pre, tail, tailOut, c, k);
    assert s == pre + tail;
  }

  /**
   * Replacing a name by a symbol absent from the input loses only case:
   * writing the symbol back as the name gives the input again, up to case.
   */
  lemma {:induction false} ReplaceRoundTrip(s: string, k: string, c: char)
    requires k != [] && Lower(k) == k && Avoids(s, c)
    ensures Lower(Restore(ReplaceCI(s, k, [c]), c, k)) == Lower(s)
    decreases |s|
  {
    if |s| < |k| {
      RestoreAvoids(s, c, k);
    } else if Lower(s[..|k|]) == k {
      ReplaceRoundTrip(s[|k|..], k, c);
      RoundTripMatch(s, k, c);
    } else {
      ReplaceRoundTrip(s[1..], k, c);
      RoundTripCopy(s, k, c);
    }
  }

  lemma {:induction false} RestoreAvoids(s: string, c: char, k: string)
    requires Avoids(s, c)
    ensures Restore(s, c, k) == s
  {
    if s != [] {
      RestoreAvoids(s[1..], c, k);
    }
  }

  /** A character absent from the input and the replacement is absent from the output. */
  lemma {:induction false} ReplaceAvoids(s: string, k: string, v: string, x: char)
    requires k != [] && Avoids(s, x) && Avoids(v, x)
    ensures Avoids(ReplaceCI(s, k, v), x)
    decreases |s|
  {
    if |s| >= |k| {
      if Lower(s[..|k|]) == k {
        ReplaceAvoids(s[|k|..], k, v, x);
      } else {
        ReplaceAvoids(s[1..], k, v, x);
      }
    }
  }

  /** greek_map, in its dict order. */
  const GreekMap: seq<(string, string)> := [
    ("alfa", "α"), ("alpha", "α"),
    ("beta", "β"),
    ("gama", "γ"), ("gamma", "γ"),
    ("delta", "δ"),
    ("lambda", "λ"),
    ("mu", "μ")
  ]

  predicate ValidTable(table: seq<(string, string)>) {
    forall i :: 0 <= i < |table| ==> table[i].0 != [] && Avoids(table[i].1, '|') && Avoids(table[i].1, '_')
  }

  /** Every rewrite of the table, in order. */
  function ReplaceAll(s: string, table: seq<(string, string)>): string
    requires ValidTable(table)
    decreases |table|
  {
    if table == [] then s else ReplaceAll(ReplaceCI(s, table[0].0, table[0].1), table[1..])
  }

  lemma GreekMapValid()
    ensures ValidTable(GreekMap)
  {
    forall i | 0 <= i < |GreekMap|
      ensures GreekMap[i].0 != [] && Avoids(GreekMap[i].1, '|') && Avoids(GreekMap[i].1, '_')
    {
      var (k, v) := GreekMap[i];
      assert |k| >= 2 && |v| == 1 && v[0] != '|' && v[0] != '_';
    }
  }

  /** _label_from_group. */
  function Label(grp: string): string {
    GreekMapValid();
    ReplaceAll(RemoveSeparators(Cambrian(Strip(grp))), GreekMap)
  }

  lemma {:induction false} ReplaceAllAvoids(s: string, table: seq<(string, string)>)
    requires ValidTable(table) && Avoids(s, '|') && Avoids(s, '_')
    ensures Avoids(ReplaceAll(s, table), '|') && Avoids(ReplaceAll(s, table), '_')
    decreases |table|
  {
    if table != [] {
      var t := ReplaceCI(s, table[0].0, table[0].1);
      ReplaceAvoids(s, table[0].0, table[0].1, '|');
      ReplaceAvoids(s, table[0].0, table[0].1, '_');
      ReplaceAllAvoids(t, table[1..]);
    }
  }

  /** A map label never holds a '|' or an '_'. */
  lemma LabelHasNoSeparators(grp: string)
    ensures Avoids(Label(grp), '|') && Avoids(Label(grp), '_')
  {
    GreekMapValid();
    ReplaceAllAvoids(RemoveSeparators(Cambrian(Strip(grp))), GreekMap);
  }

  /** Applying the table from entry i on is entry i's rewrite followed by the rest. */
  lemma ReplaceAllSuffix(s: string, table: seq<(string, string)>, i: int)
    requires ValidTable(table) && 0 <= i <= |table|
    ensures ValidTable(table[i..]) && table[0..] == table
    ensures i < |table| ==>
              && ValidTable(table[i + 1..]) && table[i].0 != []
              && ReplaceAll(s, table[i..]) == ReplaceAll(ReplaceCI(s, table[i].0, table[i].1), table[i + 1..])
  {
    if i < |table| {
      assert table[i..][0] == table[i] && table[i..][1..] == table[i + 1..];
    }
  }

  /** The label loop: strip, the Cambrian marker, the separators, then each Greek name in turn. */
  method LabelFromGroup(grp: string) returns (s: string)
    ensures s == Label(grp)
  {
    s := Strip(grp);
    s := Cambrian(s);
    s := RemoveSeparators(s);
    GreekMapValid();
    ReplaceAllSuffix(s, GreekMap, 0);
    var i := 0;
    while i < |GreekMap|
      invariant 0 <= i <= |GreekMap| && ValidTable(GreekMap[i..])
      invariant ReplaceAll(s, GreekMap[i..]) == Label(grp)
    {
      ReplaceAllSuffix(s, GreekMap, i);
      s := ReplaceCI(s, GreekMap[i].0, GreekMap[i].1);
      i := i + 1;
    }
  }

  // --------------------------------------------------------- plot order

  /** A legend item: its group (as written) and its colour, if it has one. */
  datatype Item = Item(group: string, colour: Option<string>)

  /** The era blocks of the simplified legend. */
  datatype Era = Arqueano | Proterozoico | Paleozoico | Mesozoico | Cenozoico

  function Title(e: Era): string {
    match e
    case Arqueano => "Arqueano"
    case Proterozoico => "Proterozoico"
    case Paleozoico => "Paleozoico"
    case Mesozoico => "Mesozóico"
    case Cenozoico => "Cenozoico"
  }

  /** The simplified legend's five era blocks (a missing block is empty). */
  datatype Legend = Legend(arqueano: seq<Item>, proterozoico: seq<Item>, paleozoico: seq<Item>,
                           mesozoico: seq<Item>, cenozoico: seq<Item>)

  function Block(l: Legend, e: Era): seq<Item> {
    match e
    case Arqueano => l.arqueano
    case Proterozoico => l.proterozoico
    case Paleozoico => l.paleozoico
    case Mesozoico => l.mesozoico
    case Cenozoico => l.cenozoico
  }

  const Grey := "#DDDDDD"

  /** The items in plot order: Arqueano, Proterozoico, Paleozoico, Mesozóico, Cenozoico. */
  function PlotItems(l: Legend): seq<Item> {
    l.arqueano + l.proterozoico + l.paleozoico + l.mesozoico + l.cenozoico
  }

  /** The stripped group of an item. */
  function Key(it: Item): string {
    Strip(it.group)
  }

  function ColourOr(c: Option<string>): string {
    if c.Some? then c.value else Grey
  }

  /** Each item's stripped group and colour (grey when it has none). */
  function Entries(items: seq<Item>): (es: seq<(string, string)>)
    ensures |es| == |items|
    ensures forall i :: 0 <= i < |items| ==> es[i] == (Key(items[i]), ColourOr(items[i].colour))
  {
    seq(|items|, i requires 0 <= i < |items| => (Key(items[i]), ColourOr(items[i].colour)))
  }

  /** The stripped groups of the items. */
  function Keys(items: seq<Item>): (ks: seq<string>)
    ensures |ks| == |items|
    ensures forall i :: 0 <= i < |items| ==> ks[i] == Key(items[i])
  {
    seq(|items|, i requires 0 <= i < |items| => Key(items[i]))
  }

  /** known_colors: each non-blank group's colour, a later entry overriding an earlier one. */
  function KnownColours(es: seq<(string, string)>): map<string, string> {
    if es == [] then map[]
    else
      var m := KnownColours(Init(es));
      if Last(es).0 != "" then m[Last(es).0 := Last(es).1] else m
  }

  /** The keys that occur in `present`, in order (duplicates kept). */
  function Listed(keys: seq<string>, present: set<string>): seq<string> {
    if keys == [] then []
    else Listed(Init(keys), present) + if Last(keys) in present then [Last(keys)] else []
  }

  /** The column values not in `listed`, in column order. */
  function Unlisted(column: seq<string>, listed: set<string>): seq<string> {
    if column == [] then []
    else Unlisted(Init(column), listed) + if Last(column) !in listed then [Last(column)] else []
  }

  /** present_groups: every data value of the group column, stripped (duplicates kept). */
  function PresentGroups(raw: seq<string>): (column: seq<string>)
    ensures |column| == |raw|
    ensures forall i :: 0 <= i < |raw| ==> column[i] == Strip(raw[i])
  {
    seq(|raw|, i requires 0 <= i < |raw| => Strip(raw[i]))
  }

  /**
   * A group is drawn exactly when some data value strips to it: " NP3 " in
   * the data draws the legend's "NP3" in its colour.
   */
  lemma PlotsStrippedValues(l: Legend, raw: seq<string>, g: string)
    ensures g in CategoriesPlot(l, PresentGroups(raw)) <==> exists i :: 0 <= i < |raw| && Strip(raw[i]) == g
  {
    var column := PresentGroups(raw);
    CategoriesMembers(l, column, g);
    if g in column {
      var i :| 0 <= i < |column| && column[i] == g;
      assert Strip(raw[i]) == g;
    }
  }

  /** The set of a list's elements. */
  function Elems(xs: seq<string>): (r: set<string>)
    ensures forall x :: x in r <==> x in xs
  {
    set x | x in xs
  }

  /**
   * categories_plot: the listed groups present in the data, then the other
   * present groups sorted; `column` holds the stripped data values
   * (PresentGroups of the raw column).
   */
  function CategoriesPlot(l: Legend, column: seq<string>): seq<string> {
    var listed := Listed(Keys(PlotItems(l)), Elems(column));
    listed + SortStrings(Unlisted(column, Elems(listed)))
  }

  /** color_by_group. */
  function ColourByGroup(categories: seq<string>, known: map<string, string>): map<string, string> {
    map g | g in categories :: if g in known then known[g] else Grey
  }

  lemma {:induction false} ListedMembers(keys: seq<string>, present: set<string>, g: string)
    ensures g in Listed(keys, present) <==> g in present && g in keys
  {
    if keys != [] {
      ListedMembers(Init(keys), present, g);
      assert keys == Init(keys) + [Last(keys)];
    }
  }

  lemma {:induction false} UnlistedMembers(column: seq<string>, listed: set<string>, g: string)
    ensures g in Unlisted(column, listed) <==> g in column && g !in listed
  {
    if column != [] {
      UnlistedMembers(Init(column), listed, g);
      assert column == Init(column) + [Last(column)];
    }
  }

  /** A listed group is a present group that some legend item names. */
  lemma ListedNamed(l: Legend, column: seq<string>, h: string)
    ensures h in Listed(Keys(PlotItems(l)), Elems(column)) <==>
      h in column && exists j :: 0 <= j < |PlotItems(l)| && Key(PlotItems(l)[j]) == h
  {
    var keys := Keys(PlotItems(l));
    ListedMembers(keys, Elems(column), h);
    if h in keys {
      var j :| 0 <= j < |keys| && keys[j] == h;
    }
  }

  /** A group is drawn exactly when it occurs in the data column. */
  lemma {:induction false} CategoriesMembers(l: Legend, column: seq<string>, g: string)
    ensures g in CategoriesPlot(l, column) <==> g in column
  {
    var listed := Listed(Keys(PlotItems(l)), Elems(column));
    var rest := SortStrings(Unlisted(column, Elems(listed)));
    ListedMembers(Keys(PlotItems(l)), Elems(column), g);
    UnlistedMembers(column, Elems(listed), g);
    assert CategoriesPlot(l, column) == listed + rest;
  }

  /**
   * Every present group is drawn and only those: a group is in
   * categories_plot exactly when it occurs in the data column. The groups
   * the legend lists come first, in legend order; the others follow,
   * sorted and apart from the listed ones.
   */
  lemma {:induction false} CategoriesArePresent(l: Legend, column: seq<string>, g: string)
    ensures g in CategoriesPlot(l, column) <==> g in column
    ensures var listed := Listed(Keys(PlotItems(l)), Elems(column));
      var rest := CategoriesPlot(l, column)[|listed|..];
      && CategoriesPlot(l, column)[..|listed|] == listed
      && (forall h :: h in listed <==> h in column && exists j :: 0 <= j < |PlotItems(l)| && Key(PlotItems(l)[j]) == h)
      && StrictlySorted(rest)
      && (forall h :: h in rest ==> h !in listed)
  {
    CategoriesMembers(l, column, g);
    var listed := Listed(Keys(PlotItems(l)), Elems(column));
    var rest := SortStrings(Unlisted(column, Elems(listed)));
    assert CategoriesPlot(l, column) == listed + rest;
    assert CategoriesPlot(l, column)[|listed|..] == rest;
    assert CategoriesPlot(l, column)[..|listed|] == listed;
    forall h ensures h in listed <==> h in column && exists j :: 0 <= j < |PlotItems(l)| && Key(PlotItems(l)[j]) == h {
      ListedNamed(l, column, h);
    }
    forall h | h in rest ensures h !in listed {
      UnlistedMembers(column, Elems(listed), h);
    }
  }

  /** known_colors holds exactly the non-blank groups, each with the colour of its last entry. */
  lemma {:induction false} KnownColoursMeaning(es: seq<(string, string)>, g: string)
    ensures g in KnownColours(es) <==> g != "" && exists j :: 0 <= j < |es| && es[j].0 == g
    ensures g in KnownColours(es) ==>
      exists j :: 0 <= j < |es| && es[j].0 == g && KnownColours(es)[g] == es[j].1 && forall j' :: j < j' < |es| ==> es[j'].0 != g
  {
    if es != [] {
      var init := Init(es);
      KnownColoursMeaning(init, g);
      assert forall j :: 0 <= j < |init| ==> init[j] == es[j];
      assert es[|es| - 1] == Last(es);
    }
  }

  /** Every drawn group has a colour: its legend colour, or grey when none is known. */
  lemma ColourByGroupCovers(l: Legend, column: seq<string>, g: string)
    ensures var cb := ColourByGroup(CategoriesPlot(l, column), KnownColours(Entries(PlotItems(l))));
      var known := KnownColours(Entries(PlotItems(l)));
      && (g in cb <==> g in column)
      && (g in cb ==> cb[g] == if g in known then known[g] else Grey)
  {
    CategoriesArePresent(l, column, g);
  }

  method KnownColoursLoop(items: seq<Item>) returns (known: map<string, string>)
    ensures known == KnownColours(Entries(items))
  {
    known := map[];
    var es := Entries(items);
    var i := 0;
    while i < |items|
      invariant 0 <= i <= |items|
      invariant known == KnownColours(es[..i])
    {
      assert Init(es[..i + 1]) == es[..i] && Last(es[..i + 1]) == es[i];
      var g := Strip(items[i].group);
      if g != "" {
        known := known[g := ColourOr(items[i].colour)];
      }
      i := i + 1;
    }
    assert es[..i] == es;
  }

  method ListedLoop(items: seq<Item>, present: set<string>) returns (categories: seq<string>)
    ensures categories == Listed(Keys(items), present)
  {
    categories := [];
    var keys := Keys(items);
    var i := 0;
    while i < |items|
      invariant 0 <= i <= |items|
      invariant categories == Listed(keys[..i], present)
    {
      assert Init(keys[..i + 1]) == keys[..i] && Last(keys[..i + 1]) == keys[i];
      var g := Strip(items[i].group);
      if g in present {
        categories := categories + [g];
      }
      i := i + 1;
    }
    assert keys[..i] == keys;
  }

  method UnlistedLoop(column: seq<string>, listed: set<string>) returns (missing: seq<string>)
    ensures missing == Unlisted(column, listed)
  {
    missing := [];
    var k := 0;
    while k < |column|
      invariant 0 <= k <= |column|
      invariant missing == Unlisted(column[..k], listed)
    {
      assert Init(column[..k + 1]) == column[..k] && Last(column[..k + 1]) == column[k];
      if column[k] !in listed {
        missing := missing + [column[k]];
      }
      k := k + 1;
    }
    assert column[..k] == column;
  }

  method ColourLoop(categories: seq<string>, known: map<string, string>) returns (colourBy: map<string, string>)
    ensures colourBy == ColourByGroup(categories, known)
  {
    colourBy := map[];
    var k := 0;
    while k < |categories|
      invariant 0 <= k <= |categories|
      invariant colourBy == ColourByGroup(categories[..k], known)
    {
      var g := categories[k];
      colourBy := colourBy[g := if g in known then known[g] else Grey];
      assert categories[..k + 1] == categories[..k] + [g];
      k := k + 1;
    }
    assert categories[..k] == categories;
  }

  /** The plot-order code: known_colors, categories_plot and color_by_group. */
  method PlotOrder(l: Legend, raw: seq<string>) returns (categories: seq<string>, colourBy: map<string, string>)
    ensures categories == CategoriesPlot(l, PresentGroups(raw))
    ensures colourBy == ColourByGroup(categories, KnownColours(Entries(PlotItems(l))))
  {
    var items := PlotItems(l);
    var known := KnownColoursLoop(items);
    var column := PresentGroups(raw);
    var present := Elems(column);
    var listed := ListedLoop(items, present);
    var missing := UnlistedLoop(column, Elems(listed));
    categories := listed + SortStrings(missing);
    colourBy := ColourLoop(categories, known);
  }

  // -------------------------------------------------------- legend sections

  datatype Section = Section(era: Era, items: seq<Item>)

  /** The items of a block whose group occurs in the data. */
  function Shown(items: seq<Item>, present: set<string>): (r: seq<Item>)
    ensures forall it :: it in r <==> it in items && Key(it) in present
  {
    if items == [] then []
    else (if Key(items[0]) in present then [items[0]] else []) + Shown(items[1..], present)
  }

  function SectionIf(l: Legend, e: Era, present: set<string>): seq<Section> {
    if Block(l, e) != [] then [Section(e, Shown(Block(l, e), present))] else []
  }

  /**
   * legend_sections: Mesozóico, Paleozoico, Proterozoico, Arqueano; Cenozoico
   * is left out. `present` is the set of stripped data values,
   * Elems(PresentGroups(raw)).
   */
  function LegendSections(l: Legend, present: set<string>): seq<Section> {
    SectionIf(l, Mesozoico, present)
    + (SectionIf(l, Paleozoico, present) + (SectionIf(l, Proterozoico, present) + SectionIf(l, Arqueano, present)))
  }

  /** The place of an era in the legend; Cenozoico has none. */
  function Rank(e: Era): nat {
    match e
    case Mesozoico => 0
    case Paleozoico => 1
    case Proterozoico => 2
    case Arqueano => 3
    case Cenozoico => 4
  }

  /** Each section is a non-empty block other than Cenozoico, with that block's shown items. */
  lemma SectionShape(l: Legend, present: set<string>, i: int)
    requires 0 <= i < |LegendSections(l, present)|
    ensures var sec := LegendSections(l, present)[i];
      && sec.era != Cenozoico && Block(l, sec.era) != []
      && sec.items == Shown(Block(l, sec.era), present)
  {
    var m, pz := SectionIf(l, Mesozoico, present), SectionIf(l, Paleozoico, present);
    var pr, ar := SectionIf(l, Proterozoico, present), SectionIf(l, Arqueano, present);
    SectionIfWellFormed(l, Mesozoico, present);
    SectionIfWellFormed(l, Paleozoico, present);
    SectionIfWellFormed(l, Proterozoico, present);
    SectionIfWellFormed(l, Arqueano, present);
    WellFormedConcat(l, present, pr, ar);
    WellFormedConcat(l, present, pz, pr + ar);
    WellFormedConcat(l, present, m, pz + (pr + ar));
    assert WellFormedSection(l, present, LegendSections(l, present)[i]);
  }

  /** A legend section of a present era, listing the era's shown items. */
  predicate WellFormedSection(l: Legend, present: set<string>, sec: Section) {
    sec.era != Cenozoico && Block(l, sec.era) != [] && sec.items == Shown(Block(l, sec.era), present)
  }

  predicate WellFormedSections(l: Legend, present: set<string>, secs: seq<Section>) {
    forall j :: 0 <= j < |secs| ==> WellFormedSection(l, present, secs[j])
  }

  lemma SectionIfWellFormed(l: Legend, e: Era, present: set<string>)
    requires e != Cenozoico
    ensures WellFormedSections(l, present, SectionIf(l, e, present))
  {
  }

  lemma WellFormedConcat(l: Legend, present: set<string>, a: seq<Section>, b: seq<Section>)
    requires WellFormedSections(l, present, a) && WellFormedSections(l, present, b)
    ensures WellFormedSections(l, present, a + b)
  {
    forall j | 0 <= j < |a + b| ensures WellFormedSection(l, present, (a + b)[j]) {
      if j < |a| {
        assert (a + b)[j] == a[j];
      } else {
        assert (a + b)[j] == b[j - |a|];
      }
    }
  }

  predicate Ordered(secs: seq<Section>) {
    forall i, j :: 0 <= i < j < |secs| ==> Rank(secs[i].era) < Rank(secs[j].era)
  }

  /** A section of rank r followed by ordered sections of larger rank stays ordered. */
  lemma OrderedPrepend(x: seq<Section>, rest: seq<Section>, r: nat)
    requires |x| <= 1 && (forall i :: 0 <= i < |x| ==> Rank(x[i].era) == r)
    requires Ordered(rest) && forall i :: 0 <= i < |rest| ==> Rank(rest[i].era) > r
    ensures Ordered(x + rest)
  {
    var all := x + rest;
    forall i, j | 0 <= i < j < |all| ensures Rank(all[i].era) < Rank(all[j].era) {
      if i < |x| {
        assert all[j] == rest[j - |x|];
      } else {
        assert all[i] == rest[i - |x|] && all[j] == rest[j - |x|];
      }
    }
  }

  lemma SectionIfShape(l: Legend, e: Era, present: set<string>)
    ensures |SectionIf(l, e, present)| <= 1
    ensures forall i :: 0 <= i < |SectionIf(l, e, present)| ==> SectionIf(l, e, present)[i].era == e
  {
  }

  /** The sections come in the order Mesozóico, Paleozoico, Proterozoico, Arqueano. */
  lemma LegendSectionsOrdered(l: Legend, present: set<string>)
    ensures Ordered(LegendSections(l, present))
  {
    var m, pz := SectionIf(l, Mesozoico, present), SectionIf(l, Paleozoico, present);
    var pr, ar := SectionIf(l, Proterozoico, present), SectionIf(l, Arqueano, present);
    SectionIfShape(l, Mesozoico, present);
    SectionIfShape(l, Paleozoico, present);
    SectionIfShape(l, Proterozoico, present);
    SectionIfShape(l, Arqueano, present);
    OrderedPrepend(pr, ar, 2);
    var tail2 := pr + ar;
    assert forall i :: 0 <= i < |tail2| ==> Rank(tail2[i].era) > 1 by {
      forall i | 0 <= i < |tail2| ensures Rank(tail2[i].era) > 1 {
        if i >= |pr| { assert tail2[i] == ar[i - |pr|]; }
      }
    }
    OrderedPrepend(pz, tail2, 1);
    var tail1 := pz + tail2;
    assert forall i :: 0 <= i < |tail1| ==> Rank(tail1[i].era) > 0 by {
      forall i | 0 <= i < |tail1| ensures Rank(tail1[i].era) > 0 {
        if i >= |pz| { assert tail1[i] == tail2[i - |pz|]; }
      }
    }
    OrderedPrepend(m, tail1, 0);
    assert LegendSections(l, present) == m + tail1;
  }

  /** Every non-empty block other than Cenozoico has its section. */
  lemma LegendSectionsComplete(l: Legend, present: set<string>, e: Era)
    requires e != Cenozoico && Block(l, e) != []
    ensures exists i :: 0 <= i < |LegendSections(l, present)| && LegendSections(l, present)[i].era == e
  {
    var secs := LegendSections(l, present);
    var sec := Section(e, Shown(Block(l, e), present));
    assert sec in secs;
  }

  /**
   * The sections are the non-empty blocks among Mesozóico, Paleozoico,
   * Proterozoico and Arqueano, in that order, never Cenozoico, and each
   * shows exactly its block's items whose group occurs in the data.
   */
  lemma LegendSectionsMeaning(l: Legend, present: set<string>)
    ensures var secs := LegendSections(l, present);
      && (forall i :: 0 <= i < |secs| ==> secs[i].era != Cenozoico)
      && Ordered(secs)
      && (forall e :: e != Cenozoico ==> (Block(l, e) != [] <==> exists i :: 0 <= i < |secs| && secs[i].era == e))
      && (forall i :: 0 <= i < |secs| ==>
            forall it :: it in secs[i].items <==> it in Block(l, secs[i].era) && Key(it) in present)
  {
    var secs := LegendSections(l, present);
    LegendSectionsOrdered(l, present);
    forall i | 0 <= i < |secs|
      ensures secs[i].era != Cenozoico && Block(l, secs[i].era) != []
      ensures forall it :: it in secs[i].items <==> it in Block(l, secs[i].era) && Key(it) in present
    {
      SectionShape(l, present, i);
    }
    forall e | e != Cenozoico && Block(l, e) != []
      ensures exists i :: 0 <= i < |secs| && secs[i].era == e
    {
      LegendSectionsComplete(l, present, e);
    }
  }
}
