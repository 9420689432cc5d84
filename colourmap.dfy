/**
 * The colour map of the coarse groups: every group gets its age colour,
 * its QML mix, its ROC and R1 mixes, a preliminary colour chosen by
 * priority, and then three rounds that pull apart groups sharing a colour
 * (age mixed with ROC, then with R1, then a small hue/lightness jitter,
 * at most three times).
 *
 * The map is kept as a Dafny map from group to entry; the dictionary's
 * insertion order, which the duplicate sets follow, is the order of first
 * appearance of the groups.
 */
module ColourMap {
  import opened Common
  import opened Colour
  import opened WeightedColour
  import AgeColour
  import CodeParser

  /** A colour field of the map: "" or a string that parses as a hex colour. */
  type Hex = s: string | IsColour(s) witness ""

  /** One group's record in the map. */
  datatype Entry = Entry(grpColour: Hex, idade: Hex, roc: Hex, r1: Hex, qml: Hex, qmlAttr: Option<string>)

  /** What the styler brings to the build: tables already flattened or normalised. */
  datatype Config = Config(
    flatAge: AgeColour.Assoc,
    rocNorm: map<string, string>,
    r1Norm: map<string, string>,
    siglaMap: map<string, string>,
    configured: seq<string>)

  predicate ColoursIn(al: AgeColour.Assoc) {
    forall i :: 0 <= i < |al| ==> IsColour(al[i].1)
  }

  predicate ValidConfig(cfg: Config) {
    ColoursIn(cfg.flatAge) && ValidTable(cfg.rocNorm) && ValidTable(cfg.r1Norm) && ValidTable(cfg.siglaMap)
  }

  predicate InMap(gs: seq<string>, cm: map<string, Entry>) {
    forall i :: 0 <= i < |gs| ==> gs[i] in cm
  }

  const RocColumn: string := "CLASSE_ROC"
  const R1Column: string := "CLASSE_R_1"

  function GreyHex(): (h: Hex)
    ensures h == "#DDDDDD"
  {
    var s := "#DDDDDD";
    assert IsCanonicalHex(s);
    CanonicalIsColour(s);
    s
  }

  /** The neutral grey used when a group has nothing better. */
  const Grey: Hex := GreyHex()

  // ------------------------------------------------------- derived colours

  lemma {:induction false} GetIsColour(al: AgeColour.Assoc, k: string)
    requires ColoursIn(al)
    ensures AgeColour.Get(al, k).Some? ==> IsColour(AgeColour.Get(al, k).value)
  {
    if al != [] && al[|al| - 1].0 != k {
      var init := al[..|al| - 1];
      assert forall i :: 0 <= i < |init| ==> init[i] == al[i];
      GetIsColour(init, k);
    }
  }

  lemma IdadeIsColour(code: string, flat: AgeColour.Assoc)
    requires ColoursIn(flat)
    ensures IsColour(AgeColour.IdadeColourSpec(code, flat))
  {
    var c := Upper(code);
    var m := AgeColour.FirstMatch(AgeColour.Matcher(c), AgeColour.LongestFirst(AgeColour.Keys(flat)));
    if m.Some? {
      GetIsColour(flat, m.value);
    } else {
      var f := AgeColour.FallbackMatch(c, flat, AgeColour.FallbackTokens);
      if f.Some? {
        GetIsColour(flat, f.value);
      }
    }
  }

  lemma BestQmlIsColour(t: Table, grp: string, sm: map<string, string>, configured: seq<string>)
    requires ValidTable(sm)
    ensures IsColour(BestQml(t, grp, sm, configured).mix)
  {
    BestQmlCoversMost(t, grp, sm, configured);
    var q := BestQml(t, grp, sm, configured);
    if q.attr.Some? {
      PackMixIffColoured(t, grp, q.attr.value, SiglaTable(sm));
    }
  }

  /** The fields the first loop fills in; the group colour is still empty. */
  function Derived(t: Table, cfg: Config, grp: string): Entry
    requires ValidConfig(cfg)
  {
    IdadeIsColour(CodeParser.IdadeCodeFromGrp(grp), cfg.flatAge);
    PackMixIffColoured(t, grp, RocColumn, NormTable(cfg.rocNorm));
    PackMixIffColoured(t, grp, R1Column, NormTable(cfg.r1Norm));
    BestQmlIsColour(t, grp, cfg.siglaMap, cfg.configured);
    var q := BestQml(t, grp, cfg.siglaMap, cfg.configured);
    Entry(
      "",
      AgeColour.IdadeColourSpec(CodeParser.IdadeCodeFromGrp(grp), cfg.flatAge),
      WeightedItems(t, grp, RocColumn, NormTable(cfg.rocNorm)).mix,
      WeightedItems(t, grp, R1Column, NormTable(cfg.r1Norm)).mix,
      q.mix,
      q.attr)
  }

  /**
   * The preliminary colour: the QML mix, else the colour of the group's
   * only ROC class when the ROC table knows it, else the age colour, else
   * grey. The ROC values come from the corrected collector, which skips a
   * missing cell where the source as written raises (RocCellMissing).
   */
  function Prelim(t: Table, cfg: Config, grp: string, qml: Hex, idade: Hex): (c: Hex)
    requires ValidConfig(cfg)
    ensures (forall k :: k in cfg.rocNorm ==> cfg.rocNorm[k] != "") ==> c != ""
  {
    if qml != "" then qml
    else
      var vs := CollectUnique(t, grp, RocColumn);
      if |vs| == 1 && AgeColour.NormKey(Some(vs[0])) in cfg.rocNorm then cfg.rocNorm[AgeColour.NormKey(Some(vs[0]))]
      else if idade != "" then idade
      else Grey
  }

  /**
   * A group with one row whose CLASSE_ROC cell is `v` and one row without
   * it, and no QML mix: every weighted pack of the group is computed without
   * raising, so the preliminary loop is reached; there the collector as
   * written raises, while this model skips the missing cell and takes the
   * colour of the single class `v` when the ROC table knows it.
   */
  lemma RocCellMissing(t: Table, cfg: Config, idade: Hex, v: string)
    requires t == Table([RocColumn], [Row("G", map[RocColumn := v], Some(1.0)), Row("G", map[], Some(1.0))])
    requires ValidConfig(cfg) && Reported(v)
    ensures forall c: string, g: Getter :: ValidTable(g.m) ==> WeightedItemsAsWritten(t, "G", c, g).Returns?
    ensures CollectUniqueAsWritten(t, "G", RocColumn) == TypeError
    ensures var k := AgeColour.NormKey(Some(v));
      Prelim(t, cfg, "G", "", idade) == if k in cfg.rocNorm then cfg.rocNorm[k] else if idade != "" then idade else Grey
  {
    OnePresentOneMissing(t, RocColumn, v);
  }

  function WithPrelim(t: Table, cfg: Config, grp: string): Entry
    requires ValidConfig(cfg)
  {
    var d := Derived(t, cfg, grp);
    d.(grpColour := Prelim(t, cfg, grp, d.qml, d.idade))
  }

  const Blank: Entry := Entry("", "", "", "", "", None)

  /** The entry every group starts with. */
  function BlankOf(): string -> Entry {
    g => Blank
  }

  function DerivedOf(t: Table, cfg: Config): string -> Entry
    requires ValidConfig(cfg)
  {
    g => Derived(t, cfg, g)
  }

  function WithPrelimOf(t: Table, cfg: Config): string -> Entry
    requires ValidConfig(cfg)
  {
    g => WithPrelim(t, cfg, g)
  }

  /** The map once a loop over `grps` has set the groups of `done` to `f` (the others hold `before`). */
  function Filled(grps: seq<string>, done: seq<string>, f: string -> Entry, before: string -> Entry): map<string, Entry> {
    map g | g in grps :: if g in done then f(g) else before(g)
  }

  lemma FilledStep(grps: seq<string>, i: int, f: string -> Entry, before: string -> Entry)
    requires 0 <= i < |grps|
    ensures Filled(grps, grps[..i], f, before)[grps[i] := f(grps[i])] == Filled(grps, grps[..i + 1], f, before)
  {
    assert grps[..i + 1] == grps[..i] + [grps[i]];
  }

  // ------------------------------------------------------------- dup_sets

  function Colours(order: seq<string>, cm: map<string, Entry>): seq<string>
    requires InMap(order, cm)
  {
    seq(|order|, i requires 0 <= i < |order| => cm[order[i]].grpColour)
  }

  /** The groups of one colour, in map order. */
  function Class(order: seq<string>, cm: map<string, Entry>, c: string): seq<string>
    requires InMap(order, cm)
  {
    if order == [] then []
    else Class(Init(order), cm, c) + if cm[Last(order)].grpColour == c then [Last(order)] else []
  }

  function ClassesOf(order: seq<string>, cm: map<string, Entry>, cs: seq<string>): seq<seq<string>>
    requires InMap(order, cm)
  {
    seq(|cs|, k requires 0 <= k < |cs| => Class(order, cm, cs[k]))
  }

  /** `[v for v in inv.values() if len(v) > 1]`. */
  function Crowded(ls: seq<seq<string>>): seq<seq<string>> {
    if ls == [] then [] else Crowded(Init(ls)) + if |Last(ls)| > 1 then [Last(ls)] else []
  }

  /** Every group of some list. */
  function Members(ls: seq<seq<string>>): set<string> {
    if ls == [] then {} else Members(Init(ls)) + ToSet(Last(ls))
  }

  function ToSet(xs: seq<string>): set<string> {
    set x | x in xs
  }

  /** The lists of groups sharing a colour, colours in order of first appearance. */
  function DupSets(order: seq<string>, cm: map<string, Entry>): (d: seq<seq<string>>)
    requires InMap(order, cm)
    ensures Members(d) <= cm.Keys
  {
    var d := Crowded(ClassesOf(order, cm, Unique(Colours(order, cm))));
    DupSetsInMap(order, cm);
    d
  }

  function IndexOf(xs: seq<string>, x: string): (k: int)
    ensures 0 <= k <= |xs|
    ensures k < |xs| ==> xs[k] == x
    ensures k == |xs| ==> x !in xs
  {
    if xs == [] then 0
    else if Last(xs) == x then |xs| - 1
    else
      assert xs == Init(xs) + [Last(xs)];
      var k := IndexOf(Init(xs), x);
      if k == |Init(xs)| then |xs| else k
  }

  lemma {:induction false} ClassMember(order: seq<string>, cm: map<string, Entry>, c: string, g: string)
    requires InMap(order, cm)
    ensures g in Class(order, cm, c) <==> g in order && cm[g].grpColour == c
  {
    if order != [] {
      ClassMember(Init(order), cm, c, g);
      assert order == Init(order) + [Last(order)];
    }
  }

  lemma {:induction false} ClassEmpty(order: seq<string>, cm: map<string, Entry>, c: string)
    requires InMap(order, cm) && c !in Colours(order, cm)
    ensures Class(order, cm, c) == []
  {
    if order != [] {
      var init := Init(order);
      assert Colours(order, cm)[|order| - 1] == cm[Last(order)].grpColour;
      assert Colours(init, cm) == Colours(order, cm)[..|init|];
      ClassEmpty(init, cm, c);
    }
  }

  lemma ClassSnoc(order: seq<string>, cm: map<string, Entry>, i: int, c: string)
    requires InMap(order, cm) && 0 <= i < |order|
    ensures InMap(order[..i], cm) && InMap(order[..i + 1], cm)
    ensures Class(order[..i + 1], cm, c) == Class(order[..i], cm, c) + if cm[order[i]].grpColour == c then [order[i]] else []
  {
    assert Init(order[..i + 1]) == order[..i] && Last(order[..i + 1]) == order[i];
  }

  lemma ColoursSnoc(order: seq<string>, cm: map<string, Entry>, i: int)
    requires InMap(order, cm) && 0 <= i < |order|
    ensures InMap(order[..i], cm) && InMap(order[..i + 1], cm)
    ensures Colours(order[..i + 1], cm) == Colours(order[..i], cm) + [cm[order[i]].grpColour]
  {
  }

  lemma UniqueSnoc(xs: seq<string>, x: string)
    ensures Unique(xs + [x]) == if x in Unique(xs) then Unique(xs) else Unique(xs) + [x]
  {
    assert (xs + [x])[..|xs|] == xs;
  }

  /** `inv` once the groups of `prefix` have been seen: its keys and its lists. */
  predicate InverseOf(prefix: seq<string>, cm: map<string, Entry>, keys: seq<string>, lists: seq<seq<string>>)
    requires InMap(prefix, cm)
  {
    keys == Unique(Colours(prefix, cm)) && |lists| == |keys|
    && forall k :: 0 <= k < |keys| ==> lists[k] == Class(prefix, cm, keys[k])
  }

  lemma InverseJoin(order: seq<string>, cm: map<string, Entry>, i: int, keys: seq<string>, lists: seq<seq<string>>, k: int)
    requires InMap(order, cm) && 0 <= i < |order| && InMap(order[..i], cm)
    requires InverseOf(order[..i], cm, keys, lists)
    requires 0 <= k < |keys| && keys[k] == cm[order[i]].grpColour
    ensures InMap(order[..i + 1], cm)
    ensures InverseOf(order[..i + 1], cm, keys, lists[k := lists[k] + [order[i]]])
  {
    ColoursSnoc(order, cm, i);
    UniqueSnoc(Colours(order[..i], cm), keys[k]);
    assert keys[k] in keys;
    var ls := lists[k := lists[k] + [order[i]]];
    forall k' | 0 <= k' < |keys| ensures ls[k'] == Class(order[..i + 1], cm, keys[k']) {
      ClassSnoc(order, cm, i, keys[k']);
    }
  }

  lemma InverseNew(order: seq<string>, cm: map<string, Entry>, i: int, keys: seq<string>, lists: seq<seq<string>>)
    requires InMap(order, cm) && 0 <= i < |order| && InMap(order[..i], cm)
    requires InverseOf(order[..i], cm, keys, lists)
    requires cm[order[i]].grpColour !in keys
    ensures InMap(order[..i + 1], cm)
    ensures InverseOf(order[..i + 1], cm, keys + [cm[order[i]].grpColour], lists + [[order[i]]])
  {
    var c := cm[order[i]].grpColour;
    ColoursSnoc(order, cm, i);
    UniqueSnoc(Colours(order[..i], cm), c);
    ClassEmpty(order[..i], cm, c);
    var ks := keys + [c];
    var ls := lists + [[order[i]]];
    forall k' | 0 <= k' < |ks| ensures ls[k'] == Class(order[..i + 1], cm, ks[k']) {
      ClassSnoc(order, cm, i, ks[k']);
      if k' < |keys| {
        assert ks[k'] == keys[k'] && ls[k'] == lists[k'] && keys[k'] != c;
      } else {
        assert ks[k'] == c && ls[k'] == [order[i]];
      }
    }
  }

  /** dup_sets: one pass builds the inverse map, then the crowded lists are kept. */
  method DupSetsOf(order: seq<string>, cm: map<string, Entry>) returns (dups: seq<seq<string>>)
    requires InMap(order, cm)
    ensures dups == DupSets(order, cm)
  {
    var keys: seq<string> := [];
    var lists: seq<seq<string>> := [];
    var i := 0;
    while i < |order|
      invariant 0 <= i <= |order| && InMap(order[..i], cm)
      invariant InverseOf(order[..i], cm, keys, lists)
    {
      var g := order[i];
      var c := cm[g].grpColour;
      var k := IndexOf(keys, c);
      if k < |keys| {
        InverseJoin(order, cm, i, keys, lists, k);
        lists := lists[k := lists[k] + [g]];
      } else {
        InverseNew(order, cm, i, keys, lists);
        keys := keys + [c];
        lists := lists + [[g]];
      }
      i := i + 1;
    }
    assert order[..i] == order;
    assert lists == ClassesOf(order, cm, keys);
    dups := Crowded(lists);
  }

  lemma {:induction false} MemberOf(ls: seq<seq<string>>, g: string)
    ensures g in Members(ls) <==> exists k :: 0 <= k < |ls| && g in ls[k]
  {
    if ls != [] {
      var init := Init(ls);
      MemberOf(init, g);
      assert forall k :: 0 <= k < |init| ==> init[k] == ls[k];
    }
  }

  lemma MembersSnoc(ls: seq<seq<string>>, l: seq<string>)
    ensures Members(ls + [l]) == Members(ls) + ToSet(l)
  {
    assert Init(ls + [l]) == ls;
  }

  lemma {:induction false} CrowdedMember(ls: seq<seq<string>>, g: string)
    ensures g in Members(Crowded(ls)) <==> exists k :: 0 <= k < |ls| && |ls[k]| > 1 && g in ls[k]
  {
    if ls != [] {
      var init, l := Init(ls), Last(ls);
      CrowdedMember(init, g);
      if |l| > 1 {
        MembersSnoc(Crowded(init), l);
      } else {
        assert Crowded(ls) == Crowded(init);
      }
      if g in Members(Crowded(ls)) {
        if g in Members(Crowded(init)) {
          var k :| 0 <= k < |init| && |init[k]| > 1 && g in init[k];
          assert ls[k] == init[k];
        } else {
          assert ls[|ls| - 1] == l;
        }
      }
      if exists k :: 0 <= k < |ls| && |ls[k]| > 1 && g in ls[k] {
        var k :| 0 <= k < |ls| && |ls[k]| > 1 && g in ls[k];
        if k < |init| {
          assert init[k] == ls[k];
        }
      }
    }
  }

  lemma DupSetsInMap(order: seq<string>, cm: map<string, Entry>)
    requires InMap(order, cm)
    ensures Members(Crowded(ClassesOf(order, cm, Unique(Colours(order, cm))))) <= cm.Keys
  {
    var us := Unique(Colours(order, cm));
    var ls := ClassesOf(order, cm, us);
    forall g | g in Members(Crowded(ls)) ensures g in cm {
      CrowdedMember(ls, g);
      var k :| 0 <= k < |ls| && |ls[k]| > 1 && g in ls[k];
      ClassMember(order, cm, us[k], g);
    }
  }

  /** Another group of the map has the same colour as `g`. */
  predicate Shared(order: seq<string>, cm: map<string, Entry>, g: string)
    requires InMap(order, cm) && g in cm
  {
    exists h :: h in order && h != g && cm[h].grpColour == cm[g].grpColour
  }

  predicate Distinct(xs: seq<string>) {
    forall i, j :: 0 <= i < j < |xs| ==> xs[i] != xs[j]
  }

  lemma {:induction false} ClassDistinct(order: seq<string>, cm: map<string, Entry>, c: string)
    requires InMap(order, cm) && Distinct(order)
    ensures Distinct(Class(order, cm, c))
  {
    if order != [] {
      var init := Init(order);
      assert forall i :: 0 <= i < |init| ==> init[i] == order[i];
      ClassDistinct(init, cm, c);
      ClassMember(init, cm, c, Last(order));
      assert Last(order) !in init;
    }
  }

  /**
   * A group is in a duplicate set exactly when another group of the map
   * shares its colour.
   */
  lemma DupSetsAreShared(order: seq<string>, cm: map<string, Entry>, g: string)
    requires InMap(order, cm) && Distinct(order) && g in order
    ensures g in Members(DupSets(order, cm)) <==> Shared(order, cm, g)
  {
    if g in Members(DupSets(order, cm)) {
      SharedIfDuplicate(order, cm, g);
    }
    if Shared(order, cm, g) {
      DuplicateIfShared(order, cm, g);
    }
  }

  /** The class of `g`'s colour is one of the inverted lists. */
  lemma ClassOfGroup(order: seq<string>, cm: map<string, Entry>, g: string) returns (k: nat)
    requires InMap(order, cm) && g in order
    ensures var ls := ClassesOf(order, cm, Unique(Colours(order, cm)));
      k < |ls| && ls[k] == Class(order, cm, cm[g].grpColour)
  {
    var us := Unique(Colours(order, cm));
    var i :| 0 <= i < |order| && order[i] == g;
    assert Colours(order, cm)[i] == cm[g].grpColour;
    k := IndexOf(us, cm[g].grpColour);
  }

  lemma SharedIfDuplicate(order: seq<string>, cm: map<string, Entry>, g: string)
    requires InMap(order, cm) && Distinct(order) && g in order
    requires g in Members(DupSets(order, cm))
    ensures Shared(order, cm, g)
  {
    var us := Unique(Colours(order, cm));
    var ls := ClassesOf(order, cm, us);
    CrowdedMember(ls, g);
    var k :| 0 <= k < |ls| && |ls[k]| > 1 && g in ls[k];
    ClassMember(order, cm, us[k], g);
    var c := cm[g].grpColour;
    var cl := Class(order, cm, c);
    assert ls[k] == cl;
    ClassDistinct(order, cm, c);
    var h := if cl[0] == g then cl[1] else cl[0];
    assert h in cl && h != g;
    ClassMember(order, cm, c, h);
  }

  lemma DuplicateIfShared(order: seq<string>, cm: map<string, Entry>, g: string)
    requires InMap(order, cm) && Distinct(order) && g in order
    requires Shared(order, cm, g)
    ensures g in Members(DupSets(order, cm))
  {
    var c := cm[g].grpColour;
    var h :| h in order && h != g && cm[h].grpColour == c;
    var ls := ClassesOf(order, cm, Unique(Colours(order, cm)));
    var k := ClassOfGroup(order, cm, g);
    var cl := Class(order, cm, c);
    ClassMember(order, cm, c, g);
    ClassMember(order, cm, c, h);
    assert g in cl && h in cl;
    assert cl[IndexOf(cl, g)] != cl[IndexOf(cl, h)];
    CrowdedMember(ls, g);
  }

  // --------------------------------------------------------- rounds A and B

  datatype Round = RoundA | RoundB

  /** One group's new colour in round A (age with ROC) or round B (with R1 as well). */
  function Recolour(r: Round, e: Entry): (n: Entry)
    ensures n == e.(grpColour := n.grpColour)
  {
    match r
    case RoundA =>
      if e.roc != "" then e.(grpColour := MixTwo(if e.idade != "" then e.idade else e.roc, e.roc, 0.5)) else e
    case RoundB =>
      var base: Hex := if e.roc != "" then MixTwo(e.idade, e.roc, 0.5)
                       else if e.idade != "" then e.idade else if e.r1 != "" then e.r1 else Grey;
      e.(grpColour := if e.r1 != "" then MixTwo(base, e.r1, 0.5) else base)
  }

  /** A group recoloured twice gets the colour it got the first time. */
  lemma RecolourIdempotent(r: Round, e: Entry)
    ensures Recolour(r, Recolour(r, e)) == Recolour(r, e)
  {
  }

  /** The map with the groups of `s` recoloured. */
  function Recoloured(r: Round, cm: map<string, Entry>, s: set<string>): (m: map<string, Entry>)
    ensures m.Keys == cm.Keys
  {
    map g | g in cm :: if g in s then Recolour(r, cm[g]) else cm[g]
  }

  lemma RecolouredStep(r: Round, cm: map<string, Entry>, s: set<string>, g: string)
    requires g in cm
    ensures Recoloured(r, cm, s)[g := Recolour(r, Recoloured(r, cm, s)[g])] == Recoloured(r, cm, s + {g})
  {
    var m := Recoloured(r, cm, s);
    var lhs := m[g := Recolour(r, m[g])];
    var rhs := Recoloured(r, cm, s + {g});
    assert lhs.Keys == rhs.Keys;
    forall h | h in lhs ensures lhs[h] == rhs[h] {
      if h == g {
        RecolourIdempotent(r, cm[g]);
      }
    }
  }

  lemma ToSetInMap(xs: seq<string>, cm: map<string, Entry>)
    requires ToSet(xs) <= cm.Keys
    ensures InMap(xs, cm)
  {
    assert forall i :: 0 <= i < |xs| ==> xs[i] in ToSet(xs);
  }

  lemma ToSetStep(xs: seq<string>, j: int)
    requires 0 <= j < |xs|
    ensures ToSet(xs[..j + 1]) == ToSet(xs[..j]) + {xs[j]}
  {
    assert xs[..j + 1] == xs[..j] + [xs[j]];
  }

  lemma MembersStep(ls: seq<seq<string>>, k: int)
    requires 0 <= k < |ls|
    ensures Members(ls[..k + 1]) == Members(ls[..k]) + ToSet(ls[k])
  {
    assert Init(ls[..k + 1]) == ls[..k] && Last(ls[..k + 1]) == ls[k];
  }

  lemma RecolourListStep(r: Round, cm0: map<string, Entry>, s: set<string>, l: seq<string>, j: int)
    requires ToSet(l) <= cm0.Keys && 0 <= j < |l|
    ensures var m := Recoloured(r, cm0, s + ToSet(l[..j]));
      l[j] in m && m[l[j] := Recolour(r, m[l[j]])] == Recoloured(r, cm0, s + ToSet(l[..j + 1]))
  {
    assert l[j] in ToSet(l);
    RecolouredStep(r, cm0, s + ToSet(l[..j]), l[j]);
    ToSetStep(l, j);
    assert s + ToSet(l[..j]) + {l[j]} == s + ToSet(l[..j + 1]);
  }

  /** The inner loop of rounds A and B: the groups of one duplicate list. */
  method RecolourList(r: Round, cm0: map<string, Entry>, s: set<string>, l: seq<string>, cm1: map<string, Entry>)
    returns (cm: map<string, Entry>)
    requires ToSet(l) <= cm0.Keys && cm1 == Recoloured(r, cm0, s)
    ensures cm == Recoloured(r, cm0, s + ToSet(l))
  {
    cm := cm1;
    var j := 0;
    assert s + ToSet(l[..0]) == s;
    while j < |l|
      invariant 0 <= j <= |l|
      invariant cm == Recoloured(r, cm0, s + ToSet(l[..j]))
    {
      RecolourListStep(r, cm0, s, l, j);
      var g := l[j];
      cm := cm[g := Recolour(r, cm[g])];
      j := j + 1;
    }
    assert l[..j] == l;
  }

  /** Rounds A and B: every group of every duplicate set, list by list. */
  method RecolourDuplicates(r: Round, order: seq<string>, cm0: map<string, Entry>) returns (cm: map<string, Entry>)
    requires InMap(order, cm0)
    ensures cm == Recoloured(r, cm0, Members(DupSets(order, cm0)))
  {
    var dups := DupSetsOf(order, cm0);
    cm := cm0;
    assert cm == Recoloured(r, cm0, Members(dups[..0]));
    var k := 0;
    while k < |dups|
      invariant 0 <= k <= |dups|
      invariant cm == Recoloured(r, cm0, Members(dups[..k]))
    {
      MembersStep(dups, k);
      MembersPrefix(dups, k + 1);
      cm := RecolourList(r, cm0, Members(dups[..k]), dups[k], cm);
      k := k + 1;
    }
    assert dups[..k] == dups;
  }

  /**
   * Round A: a group that shares its colour with another and has a ROC mix
   * takes the half-way mix of its age colour (or the ROC mix) with the ROC
   * mix; every other group keeps its entry.
   */
  lemma RoundAClosedForm(order: seq<string>, cm: map<string, Entry>, g: string)
    requires InMap(order, cm) && Distinct(order) && g in order
    ensures var e := cm[g];
      Recoloured(RoundA, cm, Members(DupSets(order, cm)))[g]
      == if Shared(order, cm, g) && e.roc != ""
         then e.(grpColour := MixTwo(if e.idade != "" then e.idade else e.roc, e.roc, 0.5))
         else e
  {
    DupSetsAreShared(order, cm, g);
  }

  /**
   * Round B: a group that shares its colour takes the half-way mix of its
   * base colour (age mixed with ROC when there is a ROC mix, else age, R1
   * or grey) with its R1 mix, or the base alone without R1; every other
   * group keeps its entry.
   */
  lemma RoundBClosedForm(order: seq<string>, cm: map<string, Entry>, g: string)
    requires InMap(order, cm) && Distinct(order) && g in order
    ensures var e := cm[g];
      var base := if e.roc != "" then MixTwo(e.idade, e.roc, 0.5)
                  else if e.idade != "" then e.idade else if e.r1 != "" then e.r1 else Grey;
      Recoloured(RoundB, cm, Members(DupSets(order, cm)))[g]
      == if Shared(order, cm, g)
         then e.(grpColour := if e.r1 != "" then MixTwo(base, e.r1, 0.5) else base)
         else e
  {
    DupSetsAreShared(order, cm, g);
  }

  // ---------------------------------------------------------------- round C

  /** One group's jittered colour; an empty colour starts from grey. */
  function JitterOne(cs: Colorsys, e: Entry, i: nat, dl: real): (n: Entry)
    ensures n == e.(grpColour := n.grpColour) && n.grpColour != ""
  {
    var c := Jitter(cs, if e.grpColour != "" then e.grpColour else Grey, i, 0.05, dl);
    CanonicalIsColour(c);
    e.(grpColour := c)
  }

  /** Only the group colours differ between the two maps. */
  predicate SameFields(a: map<string, Entry>, b: map<string, Entry>) {
    a.Keys == b.Keys && forall g :: g in a ==> b[g] == a[g].(grpColour := b[g].grpColour)
  }

  /** The groups of `gs` jittered one after the other, the i-th with step i. */
  function JitterGroups(cm: map<string, Entry>, gs: seq<string>, cs: Colorsys, dl: real): (r: map<string, Entry>)
    requires InMap(gs, cm)
    ensures r.Keys == cm.Keys
  {
    if gs == [] then cm
    else
      var m := JitterGroups(cm, Init(gs), cs, dl);
      assert gs[|gs| - 1] == Last(gs);
      m[Last(gs) := JitterOne(cs, m[Last(gs)], |gs| - 1, dl)]
  }

  /** One pass of round C over the duplicate lists, each list in sorted order. */
  function JitterPass(cm: map<string, Entry>, dups: seq<seq<string>>, cs: Colorsys, dl: real): (r: map<string, Entry>)
    requires Members(dups) <= cm.Keys
    ensures r.Keys == cm.Keys
  {
    if dups == [] then cm
    else
      var m := JitterPass(cm, Init(dups), cs, dl);
      var sorted := SortStrings(Last(dups));
      ToSetInMap(sorted, m);
      JitterGroups(m, sorted, cs, dl)
  }

  /** The lightness step of round C: smaller on the first pass. */
  function LightStep(tries: nat): real {
    if tries > 0 then 0.02 else 0.015
  }

  /**
   * Round C from pass `tries` on: while some colour is shared and fewer
   * than three passes ran, jitter once more. Gives the final map and the
   * number of passes.
   */
  function JitterRounds(cm: map<string, Entry>, order: seq<string>, cs: Colorsys, tries: nat): (r: (map<string, Entry>, nat))
    requires InMap(order, cm) && tries <= 3
    ensures r.0.Keys == cm.Keys && tries <= r.1 <= 3
    decreases 3 - tries
  {
    var d := DupSets(order, cm);
    if d == [] || tries == 3 then (cm, tries)
    else JitterRounds(JitterPass(cm, d, cs, LightStep(tries)), order, cs, tries + 1)
  }

  lemma SameFieldsTrans(a: map<string, Entry>, b: map<string, Entry>, c: map<string, Entry>)
    requires SameFields(a, b) && SameFields(b, c)
    ensures SameFields(a, c)
  {
    forall g | g in a ensures c[g] == a[g].(grpColour := c[g].grpColour) {
      assert b[g] == a[g].(grpColour := b[g].grpColour);
    }
  }

  /** Jittering a list of groups changes only their group colours. */
  lemma {:induction false} JitterGroupsFields(cm: map<string, Entry>, gs: seq<string>, cs: Colorsys, dl: real)
    requires InMap(gs, cm)
    ensures SameFields(cm, JitterGroups(cm, gs, cs, dl))
  {
    if gs != [] {
      JitterGroupsLast(cm, gs, cs, dl);
      JitterGroupsFields(cm, Init(gs), cs, dl);
      var m := JitterGroups(cm, Init(gs), cs, dl);
      var x := Last(gs);
      SameFieldsUpdate(cm, m, x, JitterOne(cs, m[x], |gs| - 1, dl));
    }
  }

  lemma JitterGroupsLast(cm: map<string, Entry>, gs: seq<string>, cs: Colorsys, dl: real)
    requires InMap(gs, cm) && gs != []
    ensures InMap(Init(gs), cm)
    ensures var m := JitterGroups(cm, Init(gs), cs, dl);
      Last(gs) in m && JitterGroups(cm, gs, cs, dl) == m[Last(gs) := JitterOne(cs, m[Last(gs)], |gs| - 1, dl)]
  {
    assert gs[|gs| - 1] == Last(gs);
  }

  /** Replacing one entry by a copy with another group colour keeps only colours changed. */
  lemma SameFieldsUpdate(cm: map<string, Entry>, m: map<string, Entry>, x: string, e: Entry)
    requires SameFields(cm, m) && x in m && e == m[x].(grpColour := e.grpColour)
    ensures SameFields(cm, m[x := e])
  {
    var r := m[x := e];
    forall g | g in cm ensures r[g] == cm[g].(grpColour := r[g].grpColour) {
      assert m[g] == cm[g].(grpColour := m[g].grpColour);
    }
  }

  /** A pass of round C changes only group colours. */
  lemma {:induction false} JitterPassFields(cm: map<string, Entry>, dups: seq<seq<string>>, cs: Colorsys, dl: real)
    requires Members(dups) <= cm.Keys
    ensures SameFields(cm, JitterPass(cm, dups, cs, dl))
  {
    if dups != [] {
      JitterPassFields(cm, Init(dups), cs, dl);
      var m := JitterPass(cm, Init(dups), cs, dl);
      var sorted := SortStrings(Last(dups));
      ToSetInMap(sorted, m);
      JitterGroupsFields(m, sorted, cs, dl);
      SameFieldsTrans(cm, m, JitterGroups(m, sorted, cs, dl));
    }
  }

  /** Round C changes only group colours: every other field of every entry stays. */
  lemma {:induction false} JitterRoundsFields(cm: map<string, Entry>, order: seq<string>, cs: Colorsys, tries: nat)
    requires InMap(order, cm) && tries <= 3
    ensures SameFields(cm, JitterRounds(cm, order, cs, tries).0)
    decreases 3 - tries
  {
    var d := DupSets(order, cm);
    if d == [] || tries == 3 {
      assert JitterRounds(cm, order, cs, tries).0 == cm;
    } else {
      var m := JitterPass(cm, d, cs, LightStep(tries));
      JitterPassFields(cm, d, cs, LightStep(tries));
      JitterRoundsStep(cm, order, cs, tries);
      JitterRoundsFields(m, order, cs, tries + 1);
      SameFieldsTrans(cm, m, JitterRounds(m, order, cs, tries + 1).0);
    }
  }

  lemma JitterRoundsStep(cm: map<string, Entry>, order: seq<string>, cs: Colorsys, tries: nat)
    requires InMap(order, cm) && tries < 3 && DupSets(order, cm) != []
    ensures var m := JitterPass(cm, DupSets(order, cm), cs, LightStep(tries));
      InMap(order, m) && JitterRounds(cm, order, cs, tries) == JitterRounds(m, order, cs, tries + 1)
  {
  }

  /** The first i groups of a duplicate list jittered. */
  function JitterUpTo(cm: map<string, Entry>, gs: seq<string>, i: int, cs: Colorsys, dl: real): (r: map<string, Entry>)
    requires InMap(gs, cm) && 0 <= i <= |gs|
    ensures r.Keys == cm.Keys
  {
    assert InMap(gs[..i], cm);
    JitterGroups(cm, gs[..i], cs, dl)
  }

  lemma JitterGroupsStep(cm: map<string, Entry>, gs: seq<string>, i: int, cs: Colorsys, dl: real)
    requires InMap(gs, cm) && 0 <= i < |gs|
    ensures var m := JitterUpTo(cm, gs, i, cs, dl);
      gs[i] in m && JitterUpTo(cm, gs, i + 1, cs, dl) == m[gs[i] := JitterOne(cs, m[gs[i]], i, dl)]
  {
    var p := gs[..i + 1];
    assert Init(p) == gs[..i] && Last(p) == gs[i] && |p| - 1 == i;
    assert InMap(gs[..i], cm) && InMap(p, cm);
    var m := JitterGroups(cm, gs[..i], cs, dl);
    assert gs[i] in m;
    assert JitterGroups(cm, p, cs, dl) == m[Last(p) := JitterOne(cs, m[Last(p)], |p| - 1, dl)];
  }

  lemma JitterUpToAll(cm: map<string, Entry>, gs: seq<string>, cs: Colorsys, dl: real)
    requires InMap(gs, cm)
    ensures JitterUpTo(cm, gs, 0, cs, dl) == cm
    ensures JitterUpTo(cm, gs, |gs|, cs, dl) == JitterGroups(cm, gs, cs, dl)
  {
    assert gs[..0] == [] && gs[..|gs|] == gs;
  }

  lemma {:induction false} MembersPrefix(ls: seq<seq<string>>, k: int)
    requires 0 <= k <= |ls|
    ensures Members(ls[..k]) <= Members(ls)
    decreases |ls| - k
  {
    if k < |ls| {
      MembersPrefix(ls, k + 1);
      MembersStep(ls, k);
    } else {
      assert ls[..k] == ls;
    }
  }

  lemma JitterPassStep(cm: map<string, Entry>, dups: seq<seq<string>>, k: int, cs: Colorsys, dl: real)
    requires Members(dups) <= cm.Keys && 0 <= k < |dups|
    ensures Members(dups[..k]) <= cm.Keys && Members(dups[..k + 1]) <= cm.Keys
    ensures var m := JitterPass(cm, dups[..k], cs, dl);
      InMap(SortStrings(dups[k]), m)
      && JitterPass(cm, dups[..k + 1], cs, dl) == JitterGroups(m, SortStrings(dups[k]), cs, dl)
  {
    assert Init(dups[..k + 1]) == dups[..k] && Last(dups[..k + 1]) == dups[k];
    MembersPrefix(dups, k);
    MembersPrefix(dups, k + 1);
    MembersStep(dups, k);
    ToSetInMap(SortStrings(dups[k]), JitterPass(cm, dups[..k], cs, dl));
  }

  /** The innermost loop of round C: one sorted duplicate list, the i-th group with step i. */
  method JitterList(mid: map<string, Entry>, l: seq<string>, cs: Colorsys, dl: real) returns (cm: map<string, Entry>)
    requires InMap(l, mid)
    ensures cm == JitterGroups(mid, l, cs, dl)
  {
    JitterUpToAll(mid, l, cs, dl);
    cm := mid;
    var i := 0;
    while i < |l|
      invariant 0 <= i <= |l|
      invariant cm == JitterUpTo(mid, l, i, cs, dl)
    {
      JitterGroupsStep(mid, l, i, cs, dl);
      var g := l[i];
      cm := cm[g := JitterOne(cs, cm[g], i, dl)];
      i := i + 1;
    }
  }

  /** One pass of round C: every duplicate list, each in sorted order. */
  method JitterOnce(start: map<string, Entry>, dups: seq<seq<string>>, cs: Colorsys, dl: real) returns (cm: map<string, Entry>)
    requires Members(dups) <= start.Keys
    ensures cm == JitterPass(start, dups, cs, dl)
  {
    cm := start;
    var k := 0;
    while k < |dups|
      invariant 0 <= k <= |dups|
      invariant Members(dups[..k]) <= start.Keys
      invariant cm == JitterPass(start, dups[..k], cs, dl)
    {
      JitterPassStep(start, dups, k, cs, dl);
      var sorted := SortStrings(dups[k]);
      cm := JitterList(cm, sorted, cs, dl);
      k := k + 1;
    }
    assert dups[..k] == dups;
  }

  /** Round C: the jitter loop, at most three passes. */
  method JitterDuplicates(order: seq<string>, cm0: map<string, Entry>, cs: Colorsys) returns (cm: map<string, Entry>, tries: nat)
    requires InMap(order, cm0)
    ensures (cm, tries) == JitterRounds(cm0, order, cs, 0)
  {
    cm, tries := cm0, 0;
    var dups := DupSetsOf(order, cm);
    while dups != [] && tries < 3
      invariant tries <= 3 && InMap(order, cm)
      invariant dups == DupSets(order, cm)
      invariant JitterRounds(cm, order, cs, tries) == JitterRounds(cm0, order, cs, 0)
      decreases 3 - tries
    {
      var dl := if tries > 0 then 0.02 else 0.015;
      JitterRoundsStep(cm, order, cs, tries);
      cm := JitterOnce(cm, dups, cs, dl);
      tries := tries + 1;
      dups := DupSetsOf(order, cm);
    }
  }

  /**
   * Round C stops early only once no colour is shared: with fewer than
   * three passes, no group shares its colour with another.
   */
  lemma {:induction false} JitterStopsWhenDistinct(cm: map<string, Entry>, order: seq<string>, cs: Colorsys, tries: nat, g: string)
    requires InMap(order, cm) && tries <= 3 && Distinct(order) && g in order
    ensures var r := JitterRounds(cm, order, cs, tries);
      r.1 < 3 ==> !Shared(order, r.0, g)
    decreases 3 - tries
  {
    var d := DupSets(order, cm);
    if d == [] {
      DupSetsAreShared(order, cm, g);
      assert Members(d) == {};
    } else if tries < 3 {
      JitterRoundsStep(cm, order, cs, tries);
      JitterStopsWhenDistinct(JitterPass(cm, d, cs, LightStep(tries)), order, cs, tries + 1, g);
    }
  }

  // ---------------------------------------------------------- the whole map

  function PrelimMap(t: Table, cfg: Config, grps: seq<string>): (m: map<string, Entry>)
    requires ValidConfig(cfg)
    ensures InMap(Unique(grps), m)
  {
    Filled(grps, grps, WithPrelimOf(t, cfg), DerivedOf(t, cfg))
  }

  /** The map _build_color_map_for_coarse returns. */
  function ColourMapOf(t: Table, cfg: Config, grps: seq<string>, cs: Colorsys): map<string, Entry>
    requires ValidConfig(cfg)
  {
    var order := Unique(grps);
    var p := PrelimMap(t, cfg, grps);
    var a := Recoloured(RoundA, p, Members(DupSets(order, p)));
    var b := Recoloured(RoundB, a, Members(DupSets(order, a)));
    JitterRounds(b, order, cs, 0).0
  }

  /** The first loop: one derived entry for the group, built by the styler's own methods. */
  method DerivedEntry(t: Table, cfg: Config, grp: string) returns (e: Entry)
    requires ValidConfig(cfg)
    ensures e == Derived(t, cfg, grp)
  {
    var idade := AgeColour.FindIdadeColor(CodeParser.IdadeCodeFromGrp(grp), cfg.flatAge);
    var q := BestQmlMixForGroup(t, grp, cfg.siglaMap, cfg.configured);
    var roc := WeightedItemsForColumn(t, grp, RocColumn, NormTable(cfg.rocNorm));
    var r1 := WeightedItemsForColumn(t, grp, R1Column, NormTable(cfg.r1Norm));
    e := Derived(t, cfg, grp);
    assert e == Entry("", idade, roc.mix, r1.mix, q.mix, q.attr);
  }

  /** The second loop's choice of the preliminary colour for one derived entry. */
  method PrelimColour(t: Table, cfg: Config, grp: string, qml: Hex, idade: Hex) returns (prelim: Hex)
    requires ValidConfig(cfg)
    ensures prelim == Prelim(t, cfg, grp, qml, idade)
  {
    if qml != "" {
      prelim := qml;
    } else {
      var rocVals := CollectUniqueForGroup(t, grp, RocColumn);
      if |rocVals| == 1 && AgeColour.NormKey(Some(rocVals[0])) in cfg.rocNorm {
        prelim := cfg.rocNorm[AgeColour.NormKey(Some(rocVals[0]))];
      } else {
        prelim := if idade != "" then idade else Grey;
      }
    }
  }

  /** The first loop of _build_color_map_for_coarse: the derived fields of every group. */
  method DerivedLoop(t: Table, cfg: Config, grps: seq<string>) returns (cm: map<string, Entry>)
    requires ValidConfig(cfg)
    ensures cm == Filled(grps, grps, DerivedOf(t, cfg), BlankOf())
  {
    ghost var derived := DerivedOf(t, cfg);
    ghost var blank := BlankOf();
    cm := map g | g in grps :: Blank;
    assert cm == Filled(grps, grps[..0], derived, blank);
    var i := 0;
    while i < |grps|
      invariant 0 <= i <= |grps|
      invariant cm == Filled(grps, grps[..i], derived, blank)
    {
      var e := DerivedEntry(t, cfg, grps[i]);
      FilledStep(grps, i, derived, blank);
      cm := cm[grps[i] := e];
      i := i + 1;
    }
    assert grps[..i] == grps;
  }

  /** The second loop: every group's preliminary colour. */
  method PrelimLoop(t: Table, cfg: Config, grps: seq<string>, cm0: map<string, Entry>) returns (cm: map<string, Entry>)
    requires ValidConfig(cfg) && cm0 == Filled(grps, grps, DerivedOf(t, cfg), BlankOf())
    ensures cm == Filled(grps, grps, WithPrelimOf(t, cfg), DerivedOf(t, cfg))
  {
    ghost var derived := DerivedOf(t, cfg);
    ghost var prelims := WithPrelimOf(t, cfg);
    cm := cm0;
    FilledAgain(grps, prelims, derived, BlankOf());
    var i := 0;
    while i < |grps|
      invariant 0 <= i <= |grps|
      invariant cm == Filled(grps, grps[..i], prelims, derived)
    {
      cm := SetPrelim(t, cfg, grps, i, cm);
      i := i + 1;
    }
    FilledAll(grps, prelims, derived);
  }

  /** The body of the second loop: the group's preliminary colour. */
  method SetPrelim(t: Table, cfg: Config, grps: seq<string>, i: int, cm0: map<string, Entry>) returns (cm: map<string, Entry>)
    requires ValidConfig(cfg) && 0 <= i < |grps|
    requires cm0 == Filled(grps, grps[..i], WithPrelimOf(t, cfg), DerivedOf(t, cfg))
    ensures cm == Filled(grps, grps[..i + 1], WithPrelimOf(t, cfg), DerivedOf(t, cfg))
  {
    var grp := grps[i];
    var e := cm0[grp];
    var prelim := PrelimColour(t, cfg, grp, e.qml, e.idade);
    PrelimLoopStep(t, cfg, grps, i, cm0, prelim);
    cm := cm0[grp := e.(grpColour := prelim)];
  }

  /** A loop that has filled every group leaves the start of the next loop over the same groups. */
  lemma FilledAgain(grps: seq<string>, f: string -> Entry, before: string -> Entry, older: string -> Entry)
    ensures Filled(grps, grps, before, older) == Filled(grps, grps[..0], f, before)
  {
  }

  lemma FilledAll(grps: seq<string>, f: string -> Entry, before: string -> Entry)
    ensures Filled(grps, grps[..|grps|], f, before) == Filled(grps, grps, f, before)
  {
    assert grps[..|grps|] == grps;
  }

  lemma FilledAt(grps: seq<string>, done: seq<string>, f: string -> Entry, before: string -> Entry, g: string)
    requires g in grps
    ensures Filled(grps, done, f, before)[g] == if g in done then f(g) else before(g)
  {
  }

  lemma PrelimLoopStep(t: Table, cfg: Config, grps: seq<string>, i: int, cm: map<string, Entry>, prelim: Hex)
    requires ValidConfig(cfg) && 0 <= i < |grps|
    requires cm == Filled(grps, grps[..i], WithPrelimOf(t, cfg), DerivedOf(t, cfg))
    requires prelim == Prelim(t, cfg, grps[i], cm[grps[i]].qml, cm[grps[i]].idade)
    ensures cm[grps[i] := cm[grps[i]].(grpColour := prelim)] == Filled(grps, grps[..i + 1], WithPrelimOf(t, cfg), DerivedOf(t, cfg))
  {
    var grp := grps[i];
    var e := cm[grp];
    FilledAt(grps, grps[..i], WithPrelimOf(t, cfg), DerivedOf(t, cfg), grp);
    assert e.(grpColour := "") == Derived(t, cfg, grp);
    WithPrelimOfDerived(t, cfg, grp, e, prelim);
    FilledStep(grps, i, WithPrelimOf(t, cfg), DerivedOf(t, cfg));
  }

  /** Only the QML mix and the age colour of the derived entry decide its preliminary colour. */
  lemma WithPrelimOfDerived(t: Table, cfg: Config, grp: string, e: Entry, prelim: Hex)
    requires ValidConfig(cfg) && e.(grpColour := "") == Derived(t, cfg, grp)
    requires prelim == Prelim(t, cfg, grp, e.qml, e.idade)
    ensures e.(grpColour := prelim) == WithPrelim(t, cfg, grp)
  {
    var d := Derived(t, cfg, grp);
    assert e.qml == d.qml && e.idade == d.idade;
  }

  /** _build_color_map_for_coarse: the derived loop, the preliminary loop, rounds A, B and C. */
  method BuildColourMap(t: Table, cfg: Config, grps: seq<string>, cs: Colorsys) returns (cm: map<string, Entry>)
    requires ValidConfig(cfg)
    ensures cm == ColourMapOf(t, cfg, grps, cs)
  {
    cm := DerivedLoop(t, cfg, grps);
    cm := PrelimLoop(t, cfg, grps, cm);
    var order := Unique(grps);
    cm := RecolourDuplicates(RoundA, order, cm);
    cm := RecolourDuplicates(RoundB, order, cm);
    var tries;
    cm, tries := JitterDuplicates(order, cm, cs);
  }

  /**
   * The map has one entry per group, and every entry keeps the fields
   * derived for its group, differing only in its group colour.
   */
  lemma ColourMapFields(t: Table, cfg: Config, grps: seq<string>, cs: Colorsys, g: string)
    requires ValidConfig(cfg)
    ensures var cm := ColourMapOf(t, cfg, grps, cs);
      && (g in cm <==> g in grps)
      && (g in cm ==> cm[g] == Derived(t, cfg, g).(grpColour := cm[g].grpColour))
  {
    var order := Unique(grps);
    var p := PrelimMap(t, cfg, grps);
    var a := Recoloured(RoundA, p, Members(DupSets(order, p)));
    var b := Recoloured(RoundB, a, Members(DupSets(order, a)));
    RecolouredFields(RoundA, p, Members(DupSets(order, p)));
    RecolouredFields(RoundB, a, Members(DupSets(order, a)));
    JitterRoundsFields(b, order, cs, 0);
    SameFieldsTrans(p, a, b);
    SameFieldsTrans(p, b, JitterRounds(b, order, cs, 0).0);
    if g in grps {
      PrelimMapFields(t, cfg, grps, g);
    }
  }

  /** Rounds A and B change only group colours. */
  lemma RecolouredFields(r: Round, cm: map<string, Entry>, s: set<string>)
    ensures SameFields(cm, Recoloured(r, cm, s))
  {
    var m := Recoloured(r, cm, s);
    forall g | g in cm ensures m[g] == cm[g].(grpColour := m[g].grpColour) {
      if g in s {
        assert m[g] == Recolour(r, cm[g]);
      }
    }
  }

  lemma PrelimMapFields(t: Table, cfg: Config, grps: seq<string>, g: string)
    requires ValidConfig(cfg) && g in grps
    ensures var p := PrelimMap(t, cfg, grps);
      g in p && p[g] == Derived(t, cfg, g).(grpColour := p[g].grpColour)
  {
    FilledAt(grps, grps, WithPrelimOf(t, cfg), DerivedOf(t, cfg), g);
  }
}
