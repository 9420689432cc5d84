/**
 * Area-weighted colour of one coarse group from one attribute column, the
 * choice of the QML attribute that covers most of a group, and the
 * distinct values of a column inside a group.
 *
 * A GeoDataFrame is a table of rows: each row has its coarse group, the
 * text cells it holds (a missing value is an absent cell) and its area
 * (None when NaN). pandas' groupby is the sorted list of distinct present
 * values, each with the summed area of its rows.
 */
module WeightedColour {
  import opened Common
  import opened Colour
  import AgeColour

  datatype Row = Row(coarse: string, cells: map<string, string>, area: Option<real>)

  datatype Table = Table(columns: seq<string>, rows: seq<Row>)

  function Cell(r: Row, col: string): Option<string> {
    if col in r.cells then Some(r.cells[col]) else None
  }

  /** `area_s.fillna(0.0)`. */
  function AreaOf(r: Row): real {
    if r.area.Some? then r.area.value else 0.0
  }

  /** `gdf.loc[gdf["coarse_grp"] == grp]`, in row order. */
  function InGroup(rows: seq<Row>, grp: string): (sub: seq<Row>)
    ensures forall i :: 0 <= i < |sub| ==> sub[i].coarse == grp
    ensures sub == [] <==> forall i :: 0 <= i < |rows| ==> rows[i].coarse != grp
  {
    if rows == [] then []
    else
      var init := rows[..|rows| - 1];
      var last := rows[|rows| - 1];
      var s := InGroup(init, grp);
      assert forall i :: 0 <= i < |init| ==> init[i] == rows[i];
      s + if last.coarse == grp then [last] else []
  }

  /** The cells of a column that are present, in row order. */
  function Present(rows: seq<Row>, col: string): seq<string> {
    if rows == [] then []
    else
      var c := Cell(rows[|rows| - 1], col);
      Present(rows[..|rows| - 1], col) + if c.Some? then [c.value] else []
  }

  /** The summed area of the rows whose cell is `v`. */
  function AreaWith(rows: seq<Row>, col: string, v: string): real {
    if rows == [] then 0.0
    else
      AreaWith(rows[..|rows| - 1], col, v)
      + if Cell(rows[|rows| - 1], col) == Some(v) then AreaOf(rows[|rows| - 1]) else 0.0
  }

  /** `sub.groupby(col)` summed by area: sorted keys, missing values dropped. */
  function AreaByValue(rows: seq<Row>, col: string): (abv: seq<(string, real)>)
    ensures StrictlySorted(Firsts(abv))
    ensures forall j :: 0 <= j < |abv| ==> abv[j].1 == AreaWith(rows, col, abv[j].0)
  {
    var vs := SortStrings(Present(rows, col));
    var abv := seq(|vs|, i requires 0 <= i < |vs| => (vs[i], AreaWith(rows, col, vs[i])));
    assert Firsts(abv) == vs;
    abv
  }

  function Firsts(abv: seq<(string, real)>): (ks: seq<string>)
    ensures |ks| == |abv| && forall j :: 0 <= j < |abv| ==> ks[j] == abv[j].0
  {
    seq(|abv|, j requires 0 <= j < |abv| => abv[j].0)
  }

  // ------------------------------------------------------------ colour getters

  /**
   * The two colour getters the styler passes: the SIGLA table looked up
   * case-insensitively, or a class table keyed by the normalised value.
   */
  datatype Getter = SiglaTable(m: map<string, string>) | NormTable(m: map<string, string>)

  predicate ValidTable(m: map<string, string>) {
    forall k :: k in m ==> IsColour(m[k])
  }

  function ColourOf(g: Getter, v: string): (c: string)
    requires ValidTable(g.m)
    ensures IsColour(c)
  {
    match g
    case SiglaTable(m) => AgeColour.LookupSiglaColor(m, v)
    case NormTable(m) =>
      var k := AgeColour.NormKey(Some(v));
      if k in m then m[k] else ""
  }

  /** `{_norm_key(k): v for k, v in table.items()}`: later entries win. */
  function NormaliseTable(al: AgeColour.Assoc): map<string, string> {
    if al == [] then map[]
    else
      var m0 := NormaliseTable(Init(al));
      m0[AgeColour.NormKey(Some(Last(al).0)) := Last(al).1]
  }

  /** A table of colours stays a table of colours once its keys are normalised. */
  lemma {:induction false} NormaliseTableValid(al: AgeColour.Assoc)
    requires forall i :: 0 <= i < |al| ==> IsColour(al[i].1)
    ensures ValidTable(NormaliseTable(al))
  {
    if al != [] {
      var init := Init(al);
      assert forall i :: 0 <= i < |init| ==> init[i] == al[i];
      NormaliseTableValid(init);
      assert IsColour(Last(al).1);
    }
  }

  // ------------------------------------------------- _weighted_items_for_column

  datatype Item = Item(value: string, area: real, weight: real, color: string)

  datatype Pack = Pack(items: seq<Item>, mix: string, total: real)

  /** `sum(a for a in area_by_val.values() if a > 0)`. */
  function PositiveTotal(abv: seq<(string, real)>): real {
    if abv == [] then 0.0
    else PositiveTotal(Init(abv)) + if Last(abv).1 > 0.0 then Last(abv).1 else 0.0
  }

  /** The items of the values with a positive area. */
  function Items(abv: seq<(string, real)>, g: Getter, total: real): seq<Item>
    requires ValidTable(g.m)
  {
    if abv == [] then []
    else
      var (v, a) := Last(abv);
      Items(Init(abv), g, total)
      + if a <= 0.0 then [] else [Item(v, a, if total > 0.0 then a / total else 0.0, ColourOf(g, v))]
  }

  /** The colours that enter the mix: positive area and a known colour. */
  function Coloured(abv: seq<(string, real)>, g: Getter): seq<string>
    requires ValidTable(g.m)
  {
    if abv == [] then []
    else
      var (v, a) := Last(abv);
      var c := ColourOf(g, v);
      Coloured(Init(abv), g) + if a > 0.0 && c != "" then [c] else []
  }

  /** Their areas, as weights. */
  function Weights(abv: seq<(string, real)>, g: Getter): seq<real>
    requires ValidTable(g.m)
  {
    if abv == [] then []
    else
      var (v, a) := Last(abv);
      var c := ColourOf(g, v);
      Weights(Init(abv), g) + if a > 0.0 && c != "" then [a] else []
  }

  /** Every colour handed to the mix is known and has a positive weight. */
  predicate MixInput(cs: seq<string>, ws: seq<real>) {
    |cs| == |ws| && forall j :: 0 <= j < |cs| ==> cs[j] != "" && IsColour(cs[j]) && ws[j] > 0.0
  }

  lemma {:induction false} ColouredInput(abv: seq<(string, real)>, g: Getter)
    requires ValidTable(g.m)
    ensures MixInput(Coloured(abv, g), Weights(abv, g))
  {
    if abv != [] {
      ColouredInput(Init(abv), g);
    }
  }

  const NoPack: Pack := Pack([], "", 0.0)

  /** What _weighted_items_for_column returns. */
  function WeightedItems(t: Table, grp: string, col: string, g: Getter): Pack
    requires ValidTable(g.m)
  {
    var sub := InGroup(t.rows, grp);
    if col !in t.columns || sub == [] then NoPack
    else
      var abv := AreaByValue(sub, col);
      var total := PositiveTotal(abv);
      var ws := Weights(abv, g);
      ColouredInput(abv, g);
      Pack(Items(abv, g, total), if ws != [] then MixWeighted(Coloured(abv, g), ws) else "", total)
  }

  /** _weighted_items_for_column: the loop over the grouped areas. */
  method WeightedItemsForColumn(t: Table, grp: string, col: string, g: Getter) returns (p: Pack)
    requires ValidTable(g.m)
    ensures p == WeightedItems(t, grp, col, g)
  {
    if col !in t.columns {
      return NoPack;
    }
    var sub := InGroup(t.rows, grp);
    if sub == [] {
      return NoPack;
    }
    var abv := AreaByValue(sub, col);
    var total := PositiveTotal(abv);
    var items, colors, weights := ItemsLoop(abv, g, total);
    ColouredInput(abv, g);
    var mix := if weights != [] then MixWeighted(colors, weights) else "";
    return Pack(items, mix, total);
  }

  /**
   * _weighted_items_for_column as written: when no row of the group has a
   * value in the column, groupby has no group, apply returns an empty frame,
   * its to_dict() maps each column to an empty dict, and `a > 0` on a dict
   * raises a TypeError. Otherwise it returns the pack of WeightedItems.
   */
  function WeightedItemsAsWritten(t: Table, grp: string, col: string, g: Getter): Outcome<Pack>
    requires ValidTable(g.m)
  {
    var sub := InGroup(t.rows, grp);
    if col in t.columns && sub != [] && AreaByValue(sub, col) == [] then TypeError
    else Returns(WeightedItems(t, grp, col, g))
  }

  /** No cell of the column is present exactly when every row lacks it. */
  lemma {:induction false} PresentEmpty(rows: seq<Row>, col: string)
    ensures Present(rows, col) == [] <==> forall i :: 0 <= i < |rows| ==> col !in rows[i].cells
  {
    if rows != [] {
      var init := rows[..|rows| - 1];
      assert forall i :: 0 <= i < |init| ==> init[i] == rows[i];
      PresentEmpty(init, col);
    }
  }

  /** The grouped areas are empty exactly when every row of the group lacks the column. */
  lemma AreaByValueEmpty(rows: seq<Row>, col: string)
    ensures AreaByValue(rows, col) == [] <==> forall i :: 0 <= i < |rows| ==> col !in rows[i].cells
  {
    PresentEmpty(rows, col);
    var ps := Present(rows, col);
    if ps != [] {
      assert ps[0] in SortStrings(ps);
    }
  }

  /**
   * The code as written raises exactly for a group whose rows all lack the
   * column, and otherwise returns the pack of WeightedItems.
   */
  lemma WeightedItemsRaisesIff(t: Table, grp: string, col: string, g: Getter)
    requires ValidTable(g.m)
    ensures var sub := InGroup(t.rows, grp);
      WeightedItemsAsWritten(t, grp, col, g) == TypeError <==>
        col in t.columns && sub != [] && forall i :: 0 <= i < |sub| ==> col !in sub[i].cells
    ensures WeightedItemsAsWritten(t, grp, col, g).Returns? ==>
              WeightedItemsAsWritten(t, grp, col, g).value == WeightedItems(t, grp, col, g)
  {
    AreaByValueEmpty(InGroup(t.rows, grp), col);
  }

  /**
   * The intended result for a group whose rows all lack the column: the
   * empty pack, as for a column the frame does not have.
   */
  lemma AllMissingGivesEmptyPack(t: Table, grp: string, col: string, g: Getter)
    requires ValidTable(g.m)
    requires forall i :: 0 <= i < |InGroup(t.rows, grp)| ==> col !in InGroup(t.rows, grp)[i].cells
    ensures WeightedItems(t, grp, col, g) == NoPack
  {
    AreaByValueEmpty(InGroup(t.rows, grp), col);
  }

  /**
   * A group whose only row lacks the column: the code as written raises,
   * and the intended result is the empty pack.
   */
  lemma AllMissingRaises(t: Table, col: string, g: Getter)
    requires t == Table([col], [Row("G", map[], Some(1.0))]) && ValidTable(g.m)
    ensures WeightedItemsAsWritten(t, "G", col, g) == TypeError
    ensures WeightedItems(t, "G", col, g) == NoPack
  {
    assert t.rows[..0] == [] && InGroup(t.rows, "G") == t.rows;
    WeightedItemsRaisesIff(t, "G", col, g);
    AllMissingGivesEmptyPack(t, "G", col, g);
  }

  /** The loop over the grouped areas: the items, and the colours and weights for the mix. */
  method ItemsLoop(abv: seq<(string, real)>, g: Getter, total: real)
      returns (items: seq<Item>, colors: seq<string>, weights: seq<real>)
    requires ValidTable(g.m)
    ensures items == Items(abv, g, total)
    ensures colors == Coloured(abv, g) && weights == Weights(abv, g)
  {
    items, colors, weights := [], [], [];
    var i := 0;
    while i < |abv|
      invariant 0 <= i <= |abv|
      invariant items == Items(abv[..i], g, total)
      invariant colors == Coloured(abv[..i], g) && weights == Weights(abv[..i], g)
    {
      ItemsStep(abv, g, total, i);
      var (v, a) := abv[i];
      if a > 0.0 {
        var c := ColourOf(g, v);
        items := items + [Item(v, a, if total > 0.0 then a / total else 0.0, c)];
        if c != "" {
          colors := colors + [c];
          weights := weights + [a];
        }
      }
      i := i + 1;
    }
    assert abv[..i] == abv;
  }

  /** One more grouped value: how the items, colours and weights grow. */
  lemma ItemsStep(abv: seq<(string, real)>, g: Getter, total: real, i: nat)
    requires ValidTable(g.m) && i < |abv|
    ensures var (v, a) := abv[i];
      && Items(abv[..i + 1], g, total) ==
        Items(abv[..i], g, total) + (if a <= 0.0 then [] else [Item(v, a, if total > 0.0 then a / total else 0.0, ColourOf(g, v))])
      && Coloured(abv[..i + 1], g) == Coloured(abv[..i], g) + (if a > 0.0 && ColourOf(g, v) != "" then [ColourOf(g, v)] else [])
      && Weights(abv[..i + 1], g) == Weights(abv[..i], g) + (if a > 0.0 && ColourOf(g, v) != "" then [a] else [])
  {
    assert Init(abv[..i + 1]) == abv[..i];
    assert Last(abv[..i + 1]) == abv[i];
  }

  // ------------------------------------------------------ what a pack means

  function SumAreas(items: seq<Item>): real {
    if items == [] then 0.0 else SumAreas(Init(items)) + Last(items).area
  }

  function SumItemWeights(items: seq<Item>): real {
    if items == [] then 0.0 else SumItemWeights(Init(items)) + Last(items).weight
  }

  lemma DivAdd(x: real, a: real, t: real)
    requires t > 0.0
    ensures x / t + a / t == (x + a) / t
  {
  }

  lemma ItemsAreas(abv: seq<(string, real)>, g: Getter, total: real)
    requires ValidTable(g.m)
    ensures PositiveTotal(abv) >= 0.0
    ensures SumAreas(Items(abv, g, total)) == PositiveTotal(abv)
    ensures Items(abv, g, total) != [] ==> PositiveTotal(abv) > 0.0
    ensures forall i :: 0 <= i < |Items(abv, g, total)| ==> Items(abv, g, total)[i].area > 0.0
  {
    ItemsSum(abv, g, total);
    ItemsPositive(abv, g, total);
  }

  /** One more grouped value: the item it adds, if any. */
  lemma ItemsLast(abv: seq<(string, real)>, g: Getter, total: real)
    requires ValidTable(g.m) && abv != []
    ensures var (v, a) := Last(abv);
      && PositiveTotal(abv) == PositiveTotal(Init(abv)) + (if a > 0.0 then a else 0.0)
      && Items(abv, g, total) == Items(Init(abv), g, total)
           + (if a <= 0.0 then [] else [Item(v, a, if total > 0.0 then a / total else 0.0, ColourOf(g, v))])
  {
  }

  lemma {:induction false} ItemsSum(abv: seq<(string, real)>, g: Getter, total: real)
    requires ValidTable(g.m)
    ensures PositiveTotal(abv) >= 0.0
    ensures SumAreas(Items(abv, g, total)) == PositiveTotal(abv)
  {
    if abv != [] {
      var init := Init(abv);
      var a := Last(abv).1;
      ItemsSum(init, g, total);
      ItemsLast(abv, g, total);
      var its, pre := Items(abv, g, total), Items(init, g, total);
      if a > 0.0 {
        assert its != [] && Init(its) == pre && Last(its).area == a;
      } else {
        assert its == pre;
      }
    }
  }

  lemma {:induction false} ItemsPositive(abv: seq<(string, real)>, g: Getter, total: real)
    requires ValidTable(g.m)
    ensures Items(abv, g, total) != [] ==> PositiveTotal(abv) > 0.0
    ensures forall i :: 0 <= i < |Items(abv, g, total)| ==> Items(abv, g, total)[i].area > 0.0
  {
    if abv != [] {
      var init := Init(abv);
      var a := Last(abv).1;
      ItemsPositive(init, g, total);
      ItemsSum(init, g, total);
      ItemsLast(abv, g, total);
      var its, pre := Items(abv, g, total), Items(init, g, total);
      if a > 0.0 {
        forall i | 0 <= i < |its| ensures its[i].area > 0.0 {
          if i < |pre| { assert its[i] == pre[i]; }
        }
      } else {
        assert its == pre;
      }
    }
  }

  lemma {:induction false} ItemsWeights(abv: seq<(string, real)>, g: Getter, total: real)
    requires ValidTable(g.m) && total > 0.0
    ensures SumItemWeights(Items(abv, g, total)) == PositiveTotal(abv) / total
  {
    if abv != [] {
      var init := Init(abv);
      ItemsWeights(init, g, total);
      var a := Last(abv).1;
      var its := Items(abv, g, total);
      if a > 0.0 {
        assert Init(its) == Items(init, g, total);
        DivAdd(PositiveTotal(init), a, total);
      } else {
        assert its == Items(init, g, total);
      }
    }
  }

  lemma DivSelf(t: real)
    requires t > 0.0
    ensures t / t == 1.0
  {
  }

  /**
   * The reported total is the summed area of the items, every item has a
   * positive area, and when there are items their weights add up to one.
   */
  lemma PackWeightsSumToOne(t: Table, grp: string, col: string, g: Getter)
    requires ValidTable(g.m)
    ensures var p := WeightedItems(t, grp, col, g);
      && p.total == SumAreas(p.items)
      && (forall i :: 0 <= i < |p.items| ==> p.items[i].area > 0.0)
      && (p.items != [] ==> p.total > 0.0 && SumItemWeights(p.items) == 1.0)
  {
    var sub := InGroup(t.rows, grp);
    if col in t.columns && sub != [] {
      var abv := AreaByValue(sub, col);
      var total := PositiveTotal(abv);
      ItemsAreas(abv, g, total);
      if Items(abv, g, total) != [] {
        ItemsWeights(abv, g, total);
        DivSelf(total);
      }
    }
  }

  lemma {:induction false} ColouredIffItems(abv: seq<(string, real)>, g: Getter, total: real)
    requires ValidTable(g.m)
    ensures Coloured(abv, g) == [] <==>
      forall i :: 0 <= i < |Items(abv, g, total)| ==> Items(abv, g, total)[i].color == ""
  {
    if abv != [] {
      var init := Init(abv);
      var (v, a) := Last(abv);
      ColouredIffItems(init, g, total);
      ItemsLast(abv, g, total);
      var its, pre := Items(abv, g, total), Items(init, g, total);
      assert Coloured(abv, g) == Coloured(init, g) + (if a > 0.0 && ColourOf(g, v) != "" then [ColourOf(g, v)] else []);
      if a > 0.0 {
        assert its == pre + [its[|pre|]] && its[|pre|].color == ColourOf(g, v);
        assert forall i :: 0 <= i < |pre| ==> its[i] == pre[i];
      } else {
        assert its == pre;
      }
    }
  }

  /** The mix of known colours with positive weights is empty only for no colours. */
  lemma MixOfInput(cs: seq<string>, ws: seq<real>)
    requires MixInput(cs, ws)
    ensures AllColours(cs)
    ensures IsColour(MixWeighted(cs, ws))
    ensures MixWeighted(cs, ws) != "" <==> cs != []
  {
    assert AllColours(cs);
    var r := MixWeighted(cs, ws);
    if r != "" {
      CanonicalIsColour(r);
    }
    if cs != [] {
      assert !(cs[0] == "" || ws[0] <= 0.0);
    }
  }

  /**
   * The mix is a colour, and it is empty exactly when no item has a known
   * colour.
   */
  lemma PackMixIffColoured(t: Table, grp: string, col: string, g: Getter)
    requires ValidTable(g.m)
    ensures var p := WeightedItems(t, grp, col, g);
      && IsColour(p.mix)
      && (p.mix != "" <==> exists i :: 0 <= i < |p.items| && p.items[i].color != "")
  {
    var sub := InGroup(t.rows, grp);
    if col in t.columns && sub != [] {
      var abv := AreaByValue(sub, col);
      var total := PositiveTotal(abv);
      ColouredIffItems(abv, g, total);
      ColouredInput(abv, g);
      MixOfInput(Coloured(abv, g), Weights(abv, g));
    }
  }

  /** A group has a non-empty mix only if some of its area is coloured. */
  lemma MixHasArea(t: Table, grp: string, col: string, g: Getter)
    requires ValidTable(g.m)
    ensures WeightedItems(t, grp, col, g).mix != "" ==> WeightedItems(t, grp, col, g).total > 0.0
  {
    PackMixIffColoured(t, grp, col, g);
    PackWeightsSumToOne(t, grp, col, g);
  }

  // ------------------------------------------------- _mix_weighted_from_column

  /** `weights_by_val`: the values whose summed area is positive. */
  function PositiveOnly(abv: seq<(string, real)>): (r: seq<(string, real)>)
    ensures forall j :: 0 <= j < |r| ==> r[j].1 > 0.0
  {
    if abv == [] then []
    else PositiveOnly(Init(abv)) + if Last(abv).1 > 0.0 then [Last(abv)] else []
  }

  predicate AllAreasMissing(rows: seq<Row>) {
    forall i :: 0 <= i < |rows| ==> rows[i].area.None?
  }

  /** What _mix_weighted_from_column returns. */
  function MixFromColumn(t: Table, grp: string, col: string, g: Getter): string
    requires ValidTable(g.m)
  {
    var sub := InGroup(t.rows, grp);
    if col !in t.columns || sub == [] || AllAreasMissing(sub) then ""
    else
      var kept := PositiveOnly(AreaByValue(sub, col));
      if kept == [] then ""
      else
        ColouredInput(kept, g);
        MixWeighted(Coloured(kept, g), Weights(kept, g))
  }

  /** _mix_weighted_from_column: one loop keeps the positive areas, one collects the colours. */
  method MixWeightedFromColumn(t: Table, grp: string, col: string, g: Getter) returns (mix: string)
    requires ValidTable(g.m)
    ensures mix == MixFromColumn(t, grp, col, g)
  {
    if col !in t.columns {
      return "";
    }
    var sub := InGroup(t.rows, grp);
    if sub == [] || AllAreasMissing(sub) {
      return "";
    }
    var kept := KeepPositive(AreaByValue(sub, col));
    if kept == [] {
      return "";
    }
    var colors, weights := ColouredWeights(kept, g);
    ColouredInput(kept, g);
    return MixWeighted(colors, weights);
  }

  /** `weights_by_val = {v: a for v, a in area_by_val.items() if a > 0}`. */
  method KeepPositive(abv: seq<(string, real)>) returns (kept: seq<(string, real)>)
    ensures kept == PositiveOnly(abv)
  {
    kept := [];
    var i := 0;
    while i < |abv|
      invariant 0 <= i <= |abv|
      invariant kept == PositiveOnly(abv[..i])
    {
      assert Init(abv[..i + 1]) == abv[..i] && Last(abv[..i + 1]) == abv[i];
      if abv[i].1 > 0.0 {
        kept := kept + [abv[i]];
      }
      i := i + 1;
    }
    assert abv[..i] == abv;
  }

  /** The colour lookup loop: the values with a known colour and their areas. */
  method ColouredWeights(kept: seq<(string, real)>, g: Getter) returns (colors: seq<string>, weights: seq<real>)
    requires ValidTable(g.m) && forall j :: 0 <= j < |kept| ==> kept[j].1 > 0.0
    ensures colors == Coloured(kept, g) && weights == Weights(kept, g)
  {
    colors, weights := [], [];
    var j := 0;
    while j < |kept|
      invariant 0 <= j <= |kept|
      invariant colors == Coloured(kept[..j], g) && weights == Weights(kept[..j], g)
    {
      assert Init(kept[..j + 1]) == kept[..j] && Last(kept[..j + 1]) == kept[j];
      var c := ColourOf(g, kept[j].0);
      if c != "" {
        colors := colors + [c];
        weights := weights + [kept[j].1];
      }
      j := j + 1;
    }
    assert kept[..j] == kept;
  }

  lemma {:induction false} PositiveOnlyColoured(abv: seq<(string, real)>, g: Getter)
    requires ValidTable(g.m)
    ensures Coloured(PositiveOnly(abv), g) == Coloured(abv, g)
    ensures Weights(PositiveOnly(abv), g) == Weights(abv, g)
  {
    if abv != [] {
      var init := Init(abv);
      PositiveOnlyColoured(init, g);
      var k := PositiveOnly(abv);
      if Last(abv).1 > 0.0 {
        assert k == PositiveOnly(init) + [Last(abv)];
        assert Init(k) == PositiveOnly(init) && Last(k) == Last(abv);
      } else {
        assert k == PositiveOnly(init);
      }
    }
  }

  /**
   * The older single-value helper agrees with the mix of the item report,
   * including a group whose areas are all missing.
   */
  lemma MixFromColumnAgrees(t: Table, grp: string, col: string, g: Getter)
    requires ValidTable(g.m)
    ensures MixFromColumn(t, grp, col, g) == WeightedItems(t, grp, col, g).mix
  {
    var sub := InGroup(t.rows, grp);
    if col in t.columns && sub != [] {
      var abv := AreaByValue(sub, col);
      var cs, ws := Coloured(abv, g), Weights(abv, g);
      ColouredInput(abv, g);
      MixOfInput(cs, ws);
      assert WeightedItems(t, grp, col, g).mix == if ws != [] then MixWeighted(cs, ws) else "";
      if AllAreasMissing(sub) {
        NoAreaNoWeights(sub, col, abv, g);
      } else {
        PositiveOnlyColoured(abv, g);
        var kept := PositiveOnly(abv);
        if kept == [] {
          NothingPositive(abv, g);
        } else {
          assert MixFromColumn(t, grp, col, g) == MixWeighted(cs, ws);
        }
      }
    }
  }

  lemma {:induction false} NothingPositive(abv: seq<(string, real)>, g: Getter)
    requires ValidTable(g.m)
    requires PositiveOnly(abv) == []
    ensures Weights(abv, g) == []
  {
    if abv != [] {
      NothingPositive(Init(abv), g);
    }
  }

  lemma {:induction false} AreaWithMissing(rows: seq<Row>, col: string, v: string)
    requires AllAreasMissing(rows)
    ensures AreaWith(rows, col, v) == 0.0
  {
    if rows != [] {
      AreaWithMissing(rows[..|rows| - 1], col, v);
    }
  }

  lemma NoAreaNoWeights(sub: seq<Row>, col: string, abv: seq<(string, real)>, g: Getter)
    requires ValidTable(g.m)
    requires AllAreasMissing(sub) && abv == AreaByValue(sub, col)
    ensures Weights(abv, g) == []
  {
    forall j | 0 <= j < |abv| ensures abv[j].1 <= 0.0 {
      AreaWithMissing(sub, col, abv[j].0);
    }
    NonPositiveNoWeights(abv, g);
  }

  lemma {:induction false} NonPositiveNoWeights(abv: seq<(string, real)>, g: Getter)
    requires ValidTable(g.m)
    requires forall j :: 0 <= j < |abv| ==> abv[j].1 <= 0.0
    ensures Weights(abv, g) == []
  {
    if abv != [] {
      NonPositiveNoWeights(Init(abv), g);
    }
  }

  // ------------------------------------------------- _collect_unique_for_group

  /** The cells of a column, None where the value is missing. */
  function Cells(rows: seq<Row>, col: string): (cs: seq<Option<string>>)
    ensures |cs| == |rows| && forall i :: 0 <= i < |rows| ==> cs[i] == Cell(rows[i], col)
  {
    seq(|rows|, i requires 0 <= i < |rows| => Cell(rows[i], col))
  }

  /** A value the collector reports: non-empty and not the text "nan". */
  predicate Reported(v: string) {
    v != "" && Lower(v) != "nan"
  }

  /** Python's outcome of a call: a value, or a raised TypeError. */
  datatype Outcome<T> = Returns(value: T) | TypeError

  /**
   * The filter loop as written: `if v` on a missing value raises, because
   * the truth value of pandas' NA is ambiguous.
   */
  function KeepAsWritten(us: seq<Option<string>>): Outcome<seq<string>> {
    if us == [] then Returns([])
    else
      var r := KeepAsWritten(Init(us));
      if r.TypeError? || Last(us).None? then TypeError
      else Returns(r.value + if Reported(Last(us).value) then [Last(us).value] else [])
  }

  /** The filter loop as intended: missing values are skipped like "nan". */
  function KeepReported(us: seq<Option<string>>): seq<string> {
    if us == [] then []
    else KeepReported(Init(us)) + if Last(us).Some? && Reported(Last(us).value) then [Last(us).value] else []
  }

  function CollectUniqueAsWritten(t: Table, grp: string, col: string): Outcome<seq<string>> {
    var sub := InGroup(t.rows, grp);
    if col !in t.columns || sub == [] then Returns([]) else KeepAsWritten(Unique(Cells(sub, col)))
  }

  function CollectUnique(t: Table, grp: string, col: string): seq<string> {
    var sub := InGroup(t.rows, grp);
    if col !in t.columns || sub == [] then [] else KeepReported(Unique(Cells(sub, col)))
  }

  /** _collect_unique_for_group with the missing-value guard. */
  method CollectUniqueForGroup(t: Table, grp: string, col: string) returns (uniq: seq<string>)
    ensures uniq == CollectUnique(t, grp, col)
  {
    if col !in t.columns {
      return [];
    }
    var sub := InGroup(t.rows, grp);
    if sub == [] {
      return [];
    }
    var us := Unique(Cells(sub, col));
    uniq := [];
    var i := 0;
    while i < |us|
      invariant 0 <= i <= |us|
      invariant uniq == KeepReported(us[..i])
    {
      assert Init(us[..i + 1]) == us[..i] && Last(us[..i + 1]) == us[i];
      if us[i].Some? && Reported(us[i].value) {
        uniq := uniq + [us[i].value];
      }
      i := i + 1;
    }
    assert us[..i] == us;
  }

  /**
   * A group with one row whose cell in column `col` is missing makes the code
   * as written raise; the intended collector skips the cell.
   */
  lemma CollectUniqueRaisesOnMissing(t: Table, col: string)
    requires t == Table([col], [Row("G", map[], Some(1.0))])
    ensures CollectUniqueAsWritten(t, "G", col) == TypeError
    ensures CollectUnique(t, "G", col) == []
  {
    var row := t.rows[0];
    assert t.rows[..0] == [] && InGroup([], "G") == [];
    assert InGroup(t.rows, "G") == [row];
    var cs: seq<Option<string>> := [None];
    assert Cells([row], col) == cs;
    assert cs[..0] == [] && Unique(cs[..0]) == [];
    assert Unique(cs) == cs;
    assert Init(cs) == [] && Last(cs) == None;
    assert KeepAsWritten(Init(cs)) == Returns([]);
    assert KeepAsWritten(cs) == TypeError;
    assert KeepReported(cs) == KeepReported(Init(cs)) == [];
  }

  /** The rows of the two-row table below are both in group "G". */
  lemma TwoRowsInGroup(rows: seq<Row>)
    requires |rows| == 2 && rows[0].coarse == "G" && rows[1].coarse == "G"
    ensures InGroup(rows, "G") == rows
  {
    assert rows[..1] == [rows[0]] && [rows[0]][..0] == [];
    assert InGroup([rows[0]], "G") == [rows[0]];
  }

  /** A present value followed by a missing one are two distinct values. */
  lemma UniquePresentThenMissing(v: string)
    ensures Unique([Some(v), None]) == [Some(v), None]
  {
    var cs := [Some(v), None];
    assert cs[..1] == [Some(v)] && [Some(v)][..0] == [];
    assert Unique([Some(v)]) == [Some(v)];
  }

  /** A present value followed by a missing one: the guarded loop reports the value. */
  lemma KeepPresentThenMissing(v: string)
    requires Reported(v)
    ensures KeepReported([Some(v), None]) == [v]
  {
    var cs := [Some(v), None];
    assert Init(cs) == [Some(v)] && Last(cs) == None;
    assert Init([Some(v)]) == [] && Last([Some(v)]) == Some(v);
    assert KeepReported([Some(v)]) == [v];
  }

  /**
   * A group with one row whose cell in column `col` is `v` and one row
   * without it: no weighted pack of the group raises, the collector as
   * written raises, and the guarded collector reports `v`.
   */
  lemma OnePresentOneMissing(t: Table, col: string, v: string)
    requires t == Table([col], [Row("G", map[col := v], Some(1.0)), Row("G", map[], Some(1.0))]) && Reported(v)
    ensures forall c: string, g: Getter :: ValidTable(g.m) ==> WeightedItemsAsWritten(t, "G", c, g).Returns?
    ensures CollectUniqueAsWritten(t, "G", col) == TypeError
    ensures CollectUnique(t, "G", col) == [v]
  {
    TwoRowsInGroup(t.rows);
    forall c: string, g: Getter | ValidTable(g.m) ensures WeightedItemsAsWritten(t, "G", c, g).Returns? {
      WeightedItemsRaisesIff(t, "G", c, g);
      if c in t.columns {
        assert c in t.rows[0].cells;
      }
    }
    CollectUniqueRaises(t, "G", col, 1);
    assert Cells(t.rows, col) == [Some(v), None];
    UniquePresentThenMissing(v);
    KeepPresentThenMissing(v);
  }

  lemma {:induction false} KeepAgrees(us: seq<Option<string>>)
    requires forall i :: 0 <= i < |us| ==> us[i].Some?
    ensures KeepAsWritten(us) == Returns(KeepReported(us))
  {
    if us != [] {
      assert forall i :: 0 <= i < |Init(us)| ==> Init(us)[i] == us[i];
      KeepAgrees(Init(us));
    }
  }

  lemma {:induction false} KeepRaises(us: seq<Option<string>>, i: int)
    requires 0 <= i < |us| && us[i].None?
    ensures KeepAsWritten(us) == TypeError
  {
    if i < |us| - 1 {
      assert Init(us)[i] == us[i];
      KeepRaises(Init(us), i);
    }
  }

  /** A missing value anywhere in the group makes the code as written raise. */
  lemma CollectUniqueRaises(t: Table, grp: string, col: string, i: int)
    requires col in t.columns
    requires 0 <= i < |InGroup(t.rows, grp)| && col !in InGroup(t.rows, grp)[i].cells
    ensures CollectUniqueAsWritten(t, grp, col) == TypeError
  {
    var sub := InGroup(t.rows, grp);
    var cs := Cells(sub, col);
    var us := Unique(cs);
    assert cs[i] in us;
    var k :| 0 <= k < |us| && us[k] == cs[i];
    KeepRaises(us, k);
  }

  /** Without missing values in the group, the code as written and the guarded collector agree. */
  lemma CollectUniqueAgrees(t: Table, grp: string, col: string)
    requires forall i :: 0 <= i < |InGroup(t.rows, grp)| ==> col in InGroup(t.rows, grp)[i].cells
    ensures CollectUniqueAsWritten(t, grp, col) == Returns(CollectUnique(t, grp, col))
  {
    var sub := InGroup(t.rows, grp);
    if col in t.columns && sub != [] {
      var cs := Cells(sub, col);
      var us := Unique(cs);
      forall k | 0 <= k < |us| ensures us[k].Some? {
        assert us[k] in cs;
        var i :| 0 <= i < |cs| && cs[i] == us[k];
        assert col in sub[i].cells;
      }
      KeepAgrees(us);
    }
  }

  lemma {:induction false} KeepReportedMembers(us: seq<Option<string>>)
    ensures forall v :: v in KeepReported(us) <==> Some(v) in us && Reported(v)
  {
    if us != [] {
      KeepReportedMembers(Init(us));
      assert us == Init(us) + [Last(us)];
    }
  }

  lemma {:induction false} KeepReportedDistinct(us: seq<Option<string>>)
    requires forall i, j :: 0 <= i < j < |us| ==> us[i] != us[j]
    ensures forall i, j :: 0 <= i < j < |KeepReported(us)| ==> KeepReported(us)[i] != KeepReported(us)[j]
  {
    if us != [] {
      var init := Init(us);
      assert forall i :: 0 <= i < |init| ==> init[i] == us[i];
      KeepReportedDistinct(init);
      KeepReportedMembers(init);
      if Last(us).Some? && Reported(Last(us).value) {
        assert Some(Last(us).value) !in init;
      }
    }
  }

  /**
   * The collector reports each present, non-empty, non-"nan" value of the
   * group exactly once, and nothing else.
   */
  lemma CollectUniqueMeaning(t: Table, grp: string, col: string)
    ensures var r := CollectUnique(t, grp, col);
      && (forall i, j :: 0 <= i < j < |r| ==> r[i] != r[j])
      && (forall v :: v in r <==>
            col in t.columns && Reported(v)
            && exists i :: 0 <= i < |InGroup(t.rows, grp)| && Cell(InGroup(t.rows, grp)[i], col) == Some(v))
  {
    var sub := InGroup(t.rows, grp);
    if col in t.columns && sub != [] {
      var cs := Cells(sub, col);
      var us := Unique(cs);
      KeepReportedMembers(us);
      KeepReportedDistinct(us);
      forall v ensures Some(v) in us <==> exists i :: 0 <= i < |sub| && Cell(sub[i], col) == Some(v) {
        if Some(v) in us {
          var i :| 0 <= i < |cs| && cs[i] == Some(v);
        }
      }
    }
  }

  // ---------------------------------------------------- _best_qml_mix_for_group

  predicate IsSiglaColumn(c: string) {
    Lower(c) == "sigla" || StartsWith(Lower(c), "sigla_")
  }

  /** The SIGLA-like columns, either exactly "sigla" in any case or the others. */
  function SiglaColumns(cols: seq<string>, exact: bool): (r: seq<string>)
    ensures forall c :: c in r <==> c in cols && IsSiglaColumn(c) && (Lower(c) == "sigla") == exact
  {
    if cols == [] then []
    else
      var c := Last(cols);
      assert cols == Init(cols) + [c];
      SiglaColumns(Init(cols), exact)
      + if IsSiglaColumn(c) && (Lower(c) == "sigla") == exact then [c] else []
  }

  /** Auto-detection: exact "sigla" columns first, each part in string order. */
  function AutoCandidates(cols: seq<string>): seq<string> {
    SortStrings(SiglaColumns(cols, true)) + SortStrings(SiglaColumns(cols, false))
  }

  function PresentIn(xs: seq<string>, cols: seq<string>): (r: seq<string>)
    ensures forall c :: c in r <==> c in xs && c in cols
  {
    if xs == [] then []
    else
      assert xs == Init(xs) + [Last(xs)];
      PresentIn(Init(xs), cols) + if Last(xs) in cols then [Last(xs)] else []
  }

  /** The candidate attributes: configured, else auto-detected; then present ones, deduplicated. */
  function Candidates(cols: seq<string>, configured: seq<string>): seq<string> {
    Unique(PresentIn(if configured != [] then configured else AutoCandidates(cols), cols))
  }

  lemma {:induction false} PresentInAll(xs: seq<string>, cols: seq<string>)
    requires forall c :: c in xs ==> c in cols
    ensures PresentIn(xs, cols) == xs
  {
    if xs != [] {
      var init, last := Init(xs), Last(xs);
      assert xs == init + [last];
      assert last in cols;
      forall c | c in init ensures c in cols {
        assert c in xs;
      }
      PresentInAll(init, cols);
      assert PresentIn(xs, cols) == PresentIn(init, cols) + [last];
    }
  }

  lemma {:induction false} UniqueOfDistinct<T(!new)>(xs: seq<T>)
    requires forall i, j :: 0 <= i < j < |xs| ==> xs[i] != xs[j]
    ensures Unique(xs) == xs
  {
    if xs != [] {
      var init := xs[..|xs| - 1];
      assert forall i :: 0 <= i < |init| ==> init[i] == xs[i];
      UniqueOfDistinct(init);
      assert xs[|xs| - 1] !in init;
      assert xs == init + [xs[|xs| - 1]];
    }
  }

  lemma ExactFirst(a: seq<string>, b: seq<string>)
    requires StrictlySorted(a) && StrictlySorted(b)
    requires forall x :: x in a ==> Lower(x) == "sigla"
    requires forall x :: x in b ==> Lower(x) != "sigla"
    ensures forall i, j :: 0 <= i < j < |a + b| ==> (a + b)[i] != (a + b)[j]
    ensures forall i, j :: 0 <= i < j < |a + b| && Lower((a + b)[j]) == "sigla" ==> Lower((a + b)[i]) == "sigla"
  {
    var xs := a + b;
    assert forall i :: 0 <= i < |a| ==> xs[i] == a[i] && a[i] in a;
    assert forall i :: |a| <= i < |xs| ==> xs[i] == b[i - |a|] && b[i - |a|] in b;
    forall i, j | 0 <= i < j < |xs| ensures xs[i] != xs[j] {
      if j < |a| || |a| <= i {
        StrLtIrreflexive(xs[i]);
      }
    }
  }

  /**
   * With nothing configured, the candidates are exactly the SIGLA-like
   * columns, each once, with the exact "sigla" spellings ahead of the rest.
   */
  lemma AutoCandidatesOrder(cols: seq<string>)
    ensures var r := Candidates(cols, []);
      && (forall c :: c in r <==> c in cols && IsSiglaColumn(c))
      && (forall i, j :: 0 <= i < j < |r| ==> r[i] != r[j])
      && (forall i, j :: 0 <= i < j < |r| && Lower(r[j]) == "sigla" ==> Lower(r[i]) == "sigla")
  {
    var a := SortStrings(SiglaColumns(cols, true));
    var b := SortStrings(SiglaColumns(cols, false));
    var xs := a + b;
    ExactFirst(a, b);
    PresentInAll(xs, cols);
    UniqueOfDistinct(xs);
  }

  /**
   * The index of the first candidate with the largest area among those with
   * a non-empty mix and a positive area; the comparison is strict, so ties go
   * to the earlier candidate.
   */
  function BestOf(packs: string -> Pack, cands: seq<string>): (r: Option<int>)
    ensures r.Some? ==> 0 <= r.value < |cands|
  {
    if cands == [] then None
    else
      var b := BestOf(packs, Init(cands));
      var p := packs(Last(cands));
      if p.total > (if b.Some? then packs(cands[b.value]).total else 0.0) && p.mix != ""
      then Some(|cands| - 1)
      else b
  }

  predicate Qualifies(p: Pack) {
    p.mix != "" && p.total > 0.0
  }

  lemma {:induction false} BestOfIsFirstLargest(packs: string -> Pack, cands: seq<string>)
    ensures var b := BestOf(packs, cands);
      && (b.None? <==> forall i :: 0 <= i < |cands| ==> !Qualifies(packs(cands[i])))
      && (b.Some? ==>
            var best := packs(cands[b.value]);
            && Qualifies(best)
            && (forall i :: 0 <= i < |cands| && packs(cands[i]).mix != "" ==> packs(cands[i]).total <= best.total)
            && (forall i :: 0 <= i < b.value && packs(cands[i]).mix != "" ==> packs(cands[i]).total < best.total))
  {
    if cands != [] {
      var init := Init(cands);
      assert forall i :: 0 <= i < |init| ==> init[i] == cands[i];
      BestOfIsFirstLargest(packs, init);
    }
  }

  datatype QmlChoice = QmlChoice(mix: string, attr: Option<string>, items: seq<Item>, area: real)

  function Choice(c: string, p: Pack): QmlChoice {
    QmlChoice(p.mix, Some(c), p.items, p.total)
  }

  const SiglaSpellings: seq<string> := ["sigla", "SIGLA", "Sigla"]

  function FirstPresent(names: seq<string>, cols: seq<string>): (r: Option<string>)
    ensures r.Some? ==> r.value in names && r.value in cols
    ensures r.None? ==> forall n :: n in names ==> n !in cols
  {
    if names == [] then None
    else if names[0] in cols then Some(names[0])
    else FirstPresent(names[1..], cols)
  }

  /** The pack of each attribute, coloured by the SIGLA table. */
  function SiglaPacks(t: Table, grp: string, sm: map<string, string>): string -> Pack
    requires ValidTable(sm)
  {
    c => WeightedItems(t, grp, c, SiglaTable(sm))
  }

  /** What _best_qml_mix_for_group returns. */
  function BestQml(t: Table, grp: string, sm: map<string, string>, configured: seq<string>): QmlChoice
    requires ValidTable(sm)
  {
    var cands := Candidates(t.columns, configured);
    var packs := SiglaPacks(t, grp, sm);
    var b := BestOf(packs, cands);
    if b.Some? then Choice(cands[b.value], packs(cands[b.value]))
    else
      match FirstPresent(SiglaSpellings, t.columns)
      case Some(c) => Choice(c, packs(c))
      case None => QmlChoice("", None, [], 0.0)
  }

  lemma FirstPresentStep(names: seq<string>, j: int, cols: seq<string>)
    requires 0 <= j < |names|
    ensures FirstPresent(names[j..], cols)
      == if names[j] in cols then Some(names[j]) else FirstPresent(names[j + 1..], cols)
  {
    assert names[j..][1..] == names[j + 1..];
  }

  /** _best_qml_mix_for_group: the scan over the candidates, then the fallback spellings. */
  method BestQmlMixForGroup(t: Table, grp: string, sm: map<string, string>, configured: seq<string>)
    returns (choice: QmlChoice)
    requires ValidTable(sm)
    ensures choice == BestQml(t, grp, sm, configured)
  {
    var cands := Candidates(t.columns, configured);
    ghost var packs := SiglaPacks(t, grp, sm);
    var best: Option<int> := None;
    var bestPack := NoPack;
    var bestArea := 0.0;
    var i := 0;
    while i < |cands|
      invariant 0 <= i <= |cands|
      invariant best == BestOf(packs, cands[..i])
      invariant best.Some? ==> bestPack == packs(cands[best.value]) && bestArea == bestPack.total
      invariant best.None? ==> bestArea == 0.0
    {
      assert Init(cands[..i + 1]) == cands[..i] && Last(cands[..i + 1]) == cands[i];
      var pack := WeightedItemsForColumn(t, grp, cands[i], SiglaTable(sm));
      if pack.total > bestArea && pack.mix != "" {
        best, bestPack, bestArea := Some(i), pack, pack.total;
      }
      i := i + 1;
    }
    assert cands[..i] == cands;
    if best.Some? {
      return Choice(cands[best.value], bestPack);
    }
    var names := SiglaSpellings;
    var j := 0;
    while j < |names|
      invariant 0 <= j <= |names|
      invariant FirstPresent(names[j..], t.columns) == FirstPresent(names, t.columns)
    {
      FirstPresentStep(names, j, t.columns);
      if names[j] in t.columns {
        var pack := WeightedItemsForColumn(t, grp, names[j], SiglaTable(sm));
        return Choice(names[j], pack);
      }
      j := j + 1;
    }
    return QmlChoice("", None, [], 0.0);
  }

  lemma PackTotalNonNegative(t: Table, grp: string, col: string, g: Getter)
    requires ValidTable(g.m)
    ensures WeightedItems(t, grp, col, g).total >= 0.0
  {
    var sub := InGroup(t.rows, grp);
    if col in t.columns && sub != [] {
      var abv := AreaByValue(sub, col);
      ItemsAreas(abv, g, PositiveTotal(abv));
    }
  }

  /**
   * The chosen attribute's pack is the one reported; no candidate with a
   * non-empty mix covers more area; whenever a candidate has a non-empty mix
   * the chosen one is a candidate with a non-empty mix; and with no choice
   * at all the empty answer comes back.
   */
  lemma BestQmlCoversMost(t: Table, grp: string, sm: map<string, string>, configured: seq<string>)
    requires ValidTable(sm)
    ensures var q := BestQml(t, grp, sm, configured);
      var cands := Candidates(t.columns, configured);
      var packs := SiglaPacks(t, grp, sm);
      && (q.attr.Some? ==> q.attr.value in t.columns && q == Choice(q.attr.value, packs(q.attr.value)))
      && (q.attr.None? ==> q == QmlChoice("", None, [], 0.0))
      && (forall i :: 0 <= i < |cands| && packs(cands[i]).mix != "" ==> packs(cands[i]).total <= q.area)
      && ((exists i :: 0 <= i < |cands| && packs(cands[i]).mix != "") ==>
            q.mix != "" && q.attr.Some? && q.attr.value in cands)
  {
    var cands := Candidates(t.columns, configured);
    var packs := SiglaPacks(t, grp, sm);
    BestOfIsFirstLargest(packs, cands);
    forall i | 0 <= i < |cands|
      ensures packs(cands[i]).mix != "" ==> packs(cands[i]).total > 0.0
    {
      MixHasArea(t, grp, cands[i], SiglaTable(sm));
    }
    forall c | c in cands ensures c in t.columns {
      var raw := if configured != [] then configured else AutoCandidates(t.columns);
      assert c in PresentIn(raw, t.columns);
    }
    var b := BestOf(packs, cands);
    if b.None? {
      var f := FirstPresent(SiglaSpellings, t.columns);
      if f.Some? {
        PackTotalNonNegative(t, grp, f.value, SiglaTable(sm));
      }
    } else {
      assert cands[b.value] in cands;
    }
  }
}
