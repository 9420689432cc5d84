/**
 * The decisions of cull_small_parts_by_scale, apart from the geometry:
 * which features are too small to see at 1:N, which neighbour each small
 * feature is merged into, and the bookkeeping of the merges and drops.
 *
 * Features are numbered by their position; areas (in square metres) are
 * inputs. The neighbour query and the geometric predicates are supplied as
 * data: for every small feature, the candidate targets the neighbour search
 * returned, each with the outcome of `intersects` and `distance` (None when
 * the predicate raised).
 */
module Consolidate {
  import opened Common

  // -------------------------------------------------------------- threshold

  /** The ground area, in square metres, that covers min_area_mm2 on paper at 1:N. */
  function Threshold(n: int, minAreaMm2: real): real {
    var s := n as real * 0.001;
    (s * s) * minAreaMm2
  }

  lemma SquarePositive(s: real)
    requires s != 0.0
    ensures s * s > 0.0
  {
    if s < 0.0 {
      assert s * s == (-s) * (-s);
    }
  }

  lemma DivBelow(a: real, q: real, m: real)
    requires q > 0.0
    ensures a < q * m <==> a / q < m
  {
    var r := a / q;
    assert r * q == a;
    if a < q * m {
      assert q * r < q * m;
    }
    if r < m {
      assert q * r < q * m;
    }
  }

  /**
   * A feature is below the threshold exactly when, drawn at 1:N, it covers
   * less than min_area_mm2 square millimetres of paper.
   */
  lemma BelowThresholdIsTooSmallOnPaper(n: int, minAreaMm2: real, area: real)
    requires n != 0
    ensures var s := n as real * 0.001;
      area < Threshold(n, minAreaMm2) <==> area / (s * s) < minAreaMm2
  {
    var s := n as real * 0.001;
    SquarePositive(s);
    DivBelow(area, s * s, minAreaMm2);
  }

  // -------------------------------------------------------------- partition

  /** The positions whose area is below the threshold (`small`) or not (`!small`), in order. */
  function Select(areas: seq<real>, thr: real, small: bool): seq<int> {
    if areas == [] then []
    else Select(Init(areas), thr, small) + if (Last(areas) < thr) == small then [|areas| - 1] else []
  }

  /** Small features are exactly those below the threshold, big ones exactly the others. */
  lemma {:induction false} SelectMembers(areas: seq<real>, thr: real, small: bool, i: int)
    ensures i in Select(areas, thr, small) <==> 0 <= i < |areas| && (areas[i] < thr) == small
  {
    if areas != [] {
      var init := Init(areas);
      SelectMembers(init, thr, small, i);
      if i < |init| && 0 <= i {
        assert init[i] == areas[i];
      }
    }
  }

  lemma {:induction false} SelectIncreasing(areas: seq<real>, thr: real, small: bool)
    ensures forall a, b :: 0 <= a < b < |Select(areas, thr, small)| ==> Select(areas, thr, small)[a] < Select(areas, thr, small)[b]
  {
    if areas != [] {
      var init := Init(areas);
      SelectIncreasing(init, thr, small);
      var l := Select(init, thr, small);
      forall a | 0 <= a < |l| ensures l[a] < |init| {
        SelectMembers(init, thr, small, l[a]);
      }
    }
  }

  /** The big features' areas, keyed by position (big_area). */
  function BigAreas(areas: seq<real>, thr: real): map<int, real> {
    map i | 0 <= i < |areas| && areas[i] >= thr :: areas[i]
  }

  // ----------------------------------------------------------- target choice

  /** One neighbour of a small feature: its position and the two geometric answers (None: the call raised). */
  datatype Candidate = Candidate(target: int, intersects: Option<bool>, distance: Option<real>)

  /** np.isclose's tolerances. */
  datatype Tolerance = Tolerance(atol: real, rtol: real)

  function AreaOf(bigArea: map<int, real>, t: int): real {
    if t in bigArea then bigArea[t] else 0.0
  }

  function Abs(x: real): real {
    if x >= 0.0 then x else -x
  }

  predicate Touching(s: int, c: Candidate) {
    c.target != s && c.intersects == Some(true)
  }

  predicate Measured(s: int, c: Candidate) {
    c.target != s && c.distance.Some?
  }

  /** The running state of the first pass: best index so far, its area, whether anything touched. */
  datatype TouchPick = TouchPick(best: Option<nat>, bestArea: real, found: bool)

  /** The first pass: among the touching candidates, the first of largest area (best area starts at -1). */
  function TouchPass(s: int, cs: seq<Candidate>, bigArea: map<int, real>): (p: TouchPick)
    ensures p.best.Some? ==> p.best.value < |cs|
  {
    if cs == [] then TouchPick(None, -1.0, false)
    else
      var p := TouchPass(s, Init(cs), bigArea);
      var c := Last(cs);
      if !Touching(s, c) then p
      else
        var a := AreaOf(bigArea, c.target);
        if a > p.bestArea then TouchPick(Some(|cs| - 1), a, true) else p.(found := true)
  }

  /** The running state of the second pass: best index, its area and its distance (None: infinity). */
  datatype NearPick = NearPick(best: Option<nat>, bestArea: real, bestD: Option<real>)

  predicate Closer(d: real, b: Option<real>) {
    b.None? || d < b.value
  }

  /** np.isclose(d, b) with b the running best; never close to infinity. */
  predicate IsClose(d: real, b: Option<real>, tol: Tolerance) {
    b.Some? && Abs(d - b.value) <= tol.atol + tol.rtol * Abs(b.value)
  }

  /** The second pass: the nearest candidate, a near-tie going to the larger area. */
  function NearPass(s: int, cs: seq<Candidate>, bigArea: map<int, real>, tol: Tolerance): (q: NearPick)
    ensures q.best.Some? ==> q.best.value < |cs|
  {
    if cs == [] then NearPick(None, -1.0, None)
    else
      var q := NearPass(s, Init(cs), bigArea, tol);
      var c := Last(cs);
      if !Measured(s, c) then q
      else
        var d := c.distance.value;
        var a := AreaOf(bigArea, c.target);
        if Closer(d, q.bestD) || (IsClose(d, q.bestD, tol) && a > q.bestArea) then NearPick(Some(|cs| - 1), a, Some(d))
        else q
  }

  function TargetAt(cs: seq<Candidate>, i: Option<nat>): Option<int> {
    if i.Some? && i.value < |cs| then Some(cs[i.value].target) else None
  }

  /** The target a small feature is merged into, if any. */
  function Choose(s: int, cs: seq<Candidate>, bigArea: map<int, real>, tol: Tolerance): Option<int> {
    var p := TouchPass(s, cs, bigArea);
    if p.found then TargetAt(cs, p.best) else TargetAt(cs, NearPass(s, cs, bigArea, tol).best)
  }

  predicate NonNegative(bigArea: map<int, real>) {
    forall t :: t in bigArea ==> bigArea[t] >= 0.0
  }

  /**
   * With non-negative areas the first pass finds a target exactly when
   * some candidate touches: the first touching candidate of largest area.
   */
  lemma {:induction false} TouchPassMeaning(s: int, cs: seq<Candidate>, bigArea: map<int, real>)
    requires NonNegative(bigArea)
    ensures var p := TouchPass(s, cs, bigArea);
      && (p.found <==> p.best.Some?)
      && (p.best.None? ==> p.bestArea == -1.0)
      && (p.best.None? ==> forall j :: 0 <= j < |cs| ==> !Touching(s, cs[j]))
      && (p.best.Some? ==>
            var i := p.best.value;
            && Touching(s, cs[i]) && p.bestArea == AreaOf(bigArea, cs[i].target)
            && (forall j :: 0 <= j < |cs| && Touching(s, cs[j]) ==> AreaOf(bigArea, cs[j].target) <= p.bestArea)
            && (forall j :: 0 <= j < i && Touching(s, cs[j]) ==> AreaOf(bigArea, cs[j].target) < p.bestArea))
  {
    if cs != [] {
      var init := Init(cs);
      TouchPassMeaning(s, init, bigArea);
      assert forall j :: 0 <= j < |init| ==> init[j] == cs[j];
      assert cs[|cs| - 1] == Last(cs);
    }
  }

  /**
   * With exact comparison (both tolerances zero) the second pass finds a
   * target exactly when some candidate has a distance: the first candidate
   * of least distance among those of largest area at that distance.
   */
  lemma {:induction false} NearPassExact(s: int, cs: seq<Candidate>, bigArea: map<int, real>)
    ensures var q := NearPass(s, cs, bigArea, Tolerance(0.0, 0.0));
      && (q.best.None? <==> forall j :: 0 <= j < |cs| ==> !Measured(s, cs[j]))
      && (q.best.None? ==> q.bestD.None?)
      && (q.best.Some? ==>
            var i := q.best.value;
            && Measured(s, cs[i]) && q.bestD == cs[i].distance && q.bestArea == AreaOf(bigArea, cs[i].target)
            && (forall j :: 0 <= j < |cs| && Measured(s, cs[j]) ==> q.bestD.value <= cs[j].distance.value)
            && (forall j :: 0 <= j < |cs| && Measured(s, cs[j]) && cs[j].distance == q.bestD ==>
                  AreaOf(bigArea, cs[j].target) <= q.bestArea)
            && (forall j :: 0 <= j < i && Measured(s, cs[j]) && cs[j].distance == q.bestD ==>
                  AreaOf(bigArea, cs[j].target) < q.bestArea))
  {
    if cs != [] {
      var init := Init(cs);
      NearPassExact(s, init, bigArea);
      assert forall j :: 0 <= j < |init| ==> init[j] == cs[j];
      assert cs[|cs| - 1] == Last(cs);
    }
  }

  /** Whatever the tolerance, the second pass picks a candidate with a distance, and finds one whenever there is one. */
  lemma {:induction false} NearPassPicksMeasured(s: int, cs: seq<Candidate>, bigArea: map<int, real>, tol: Tolerance)
    ensures var q := NearPass(s, cs, bigArea, tol);
      && (q.best.None? <==> forall j :: 0 <= j < |cs| ==> !Measured(s, cs[j]))
      && (q.best.None? ==> q.bestD.None?)
      && (q.best.Some? ==> Measured(s, cs[q.best.value]) && q.bestD.Some?)
  {
    if cs != [] {
      var init := Init(cs);
      NearPassPicksMeasured(s, init, bigArea, tol);
      assert forall j :: 0 <= j < |init| ==> init[j] == cs[j];
      assert cs[|cs| - 1] == Last(cs);
    }
  }

  /** A small feature is never merged into itself, and only into one of its candidates. */
  lemma ChooseIsCandidate(s: int, cs: seq<Candidate>, bigArea: map<int, real>, tol: Tolerance)
    requires NonNegative(bigArea)
    ensures var r := Choose(s, cs, bigArea, tol);
      r.Some? ==> r.value != s && exists j :: 0 <= j < |cs| && cs[j].target == r.value
  {
    TouchPassMeaning(s, cs, bigArea);
    NearPassPicksMeasured(s, cs, bigArea, tol);
  }

  /**
   * A touching candidate always wins over candidates that are merely near:
   * the target touches and has at least the area of every touching candidate.
   */
  lemma ChoosePrefersTouching(s: int, cs: seq<Candidate>, bigArea: map<int, real>, tol: Tolerance, j: int)
    requires NonNegative(bigArea)
    requires 0 <= j < |cs| && Touching(s, cs[j])
    ensures TouchPass(s, cs, bigArea).best.Some?
    ensures var i := TouchPass(s, cs, bigArea).best.value;
      && Choose(s, cs, bigArea, tol) == Some(cs[i].target)
      && Touching(s, cs[i]) && AreaOf(bigArea, cs[j].target) <= AreaOf(bigArea, cs[i].target)
  {
    TouchPassMeaning(s, cs, bigArea);
  }

  /** The per-feature loops: touching candidates first, then the nearest. */
  method ChooseTarget(s: int, cs: seq<Candidate>, bigArea: map<int, real>, tol: Tolerance) returns (bestT: Option<int>)
    ensures bestT == Choose(s, cs, bigArea, tol)
  {
    bestT := None;
    var bestArea := -1.0;
    var found := false;
    var i := 0;
    while i < |cs|
      invariant 0 <= i <= |cs|
      invariant var p := TouchPass(s, cs[..i], bigArea);
        bestT == TargetAt(cs, p.best) && bestArea == p.bestArea && found == p.found
    {
      assert Init(cs[..i + 1]) == cs[..i] && Last(cs[..i + 1]) == cs[i];
      var c := cs[i];
      if c.target != s && c.intersects == Some(true) {
        found := true;
        var a := AreaOf(bigArea, c.target);
        if a > bestArea {
          bestArea, bestT := a, Some(c.target);
        }
      }
      i := i + 1;
    }
    assert cs[..i] == cs;
    if !found {
      bestT, bestArea := None, -1.0;
      var bestD: Option<real> := None;
      i := 0;
      while i < |cs|
        invariant 0 <= i <= |cs|
        invariant var q := NearPass(s, cs[..i], bigArea, tol);
          bestT == TargetAt(cs, q.best) && bestArea == q.bestArea && bestD == q.bestD
      {
        assert Init(cs[..i + 1]) == cs[..i] && Last(cs[..i + 1]) == cs[i];
        var c := cs[i];
        if c.target != s && c.distance.Some? {
          var d := c.distance.value;
          var a := AreaOf(bigArea, c.target);
          if Closer(d, bestD) || (IsClose(d, bestD, tol) && a > bestArea) {
            bestD, bestArea, bestT := Some(d), a, Some(c.target);
          }
        }
        i := i + 1;
      }
      assert cs[..i] == cs;
    }
  }

  // ------------------------------------------------------------ bookkeeping

  /** to_union after the small features have been handled: target -> small features, in order. */
  function UnionFold(smalls: seq<int>, choices: seq<Option<int>>): map<int, seq<int>>
    requires |smalls| == |choices|
  {
    if smalls == [] then map[]
    else
      var m := UnionFold(Init(smalls), Init(choices));
      var c := Last(choices);
      if c.None? then m else m[c.value := (if c.value in m then m[c.value] else []) + [Last(smalls)]]
  }

  /** to_drop after the small features have been handled. */
  function DropFold(smalls: seq<int>, choices: seq<Option<int>>): set<int>
    requires |smalls| == |choices|
  {
    if smalls == [] then {}
    else DropFold(Init(smalls), Init(choices)) + if Last(choices).Some? then {Last(smalls)} else {}
  }

  /** The small features assigned to t, in order. */
  function AssignedTo(smalls: seq<int>, choices: seq<Option<int>>, t: int): seq<int>
    requires |smalls| == |choices|
  {
    if smalls == [] then []
    else AssignedTo(Init(smalls), Init(choices), t) + if Last(choices) == Some(t) then [Last(smalls)] else []
  }

  /**
   * to_union has a list for exactly the chosen targets, and each list holds
   * the small features that chose that target, in the order they were seen.
   */
  lemma {:induction false} UnionMeaning(smalls: seq<int>, choices: seq<Option<int>>, t: int)
    requires |smalls| == |choices|
    ensures t in UnionFold(smalls, choices) <==> Some(t) in choices
    ensures t in UnionFold(smalls, choices) ==> UnionFold(smalls, choices)[t] == AssignedTo(smalls, choices, t)
  {
    if smalls != [] {
      UnionMeaning(Init(smalls), Init(choices), t);
      assert choices == Init(choices) + [Last(choices)];
      var m := UnionFold(Init(smalls), Init(choices));
      if Last(choices) == Some(t) && t !in m {
        assert AssignedTo(Init(smalls), Init(choices), t) == [] by {
          AssignedEmpty(Init(smalls), Init(choices), t);
        }
      }
    }
  }

  lemma {:induction false} AssignedEmpty(smalls: seq<int>, choices: seq<Option<int>>, t: int)
    requires |smalls| == |choices| && Some(t) !in choices
    ensures AssignedTo(smalls, choices, t) == []
  {
    if smalls != [] {
      assert choices == Init(choices) + [Last(choices)];
      AssignedEmpty(Init(smalls), Init(choices), t);
    }
  }

  /** to_drop holds exactly the small features that found a target. */
  lemma {:induction false} DropMeaning(smalls: seq<int>, choices: seq<Option<int>>, x: int)
    requires |smalls| == |choices|
    ensures x in DropFold(smalls, choices) <==> exists k :: 0 <= k < |smalls| && smalls[k] == x && choices[k].Some?
  {
    if smalls != [] {
      var si, ci := Init(smalls), Init(choices);
      DropMeaning(si, ci, x);
      assert forall k :: 0 <= k < |si| ==> si[k] == smalls[k] && ci[k] == choices[k];
      assert smalls[|smalls| - 1] == Last(smalls) && choices[|choices| - 1] == Last(choices);
    }
  }

  /** The choice of every small feature, from its candidates. */
  function NearChoices(smalls: seq<int>, near: int -> seq<Candidate>, bigArea: map<int, real>, tol: Tolerance): (cs: seq<Option<int>>)
    ensures |cs| == |smalls|
  {
    seq(|smalls|, k requires 0 <= k < |smalls| => Choose(smalls[k], near(smalls[k]), bigArea, tol))
  }

  // ----------------------------------------------------------- the fallback

  /** area_s.idxmax(): the first position of largest area. */
  function IdxMax(areas: seq<real>): (i: nat)
    requires areas != []
    ensures i < |areas|
  {
    if |areas| == 1 then 0
    else
      var b := IdxMax(Init(areas));
      if Last(areas) > areas[b] then |areas| - 1 else b
  }

  lemma {:induction false} IdxMaxIsFirstLargest(areas: seq<real>)
    requires areas != []
    ensures var i := IdxMax(areas);
      (forall j :: 0 <= j < |areas| ==> areas[j] <= areas[i]) && (forall j :: 0 <= j < i ==> areas[j] < areas[i])
  {
    if |areas| > 1 {
      var init := Init(areas);
      IdxMaxIsFirstLargest(init);
      assert forall j :: 0 <= j < |init| ==> init[j] == areas[j];
    }
  }

  /** When every feature is small, each one but the target goes to the target. */
  function FallbackChoices(smalls: seq<int>, tgt: int): (cs: seq<Option<int>>)
    ensures |cs| == |smalls|
  {
    seq(|smalls|, k requires 0 <= k < |smalls| => if smalls[k] == tgt then None else Some(tgt))
  }

  // ------------------------------------------------------------ whole plan

  /** NoData is the ValueError raised for a frame without geometries. */
  datatype Plan = NoData | Unchanged | Merge(toUnion: map<int, seq<int>>, toDrop: set<int>)

  /**
   * The plan cull_small_parts_by_scale carries out: the ValueError of
   * width_to_scale when there is no feature; nothing when no feature is
   * small; otherwise each small feature goes to its chosen neighbour, or,
   * when there is no big feature at all, to the first feature of largest area.
   */
  function CullPlan(areas: seq<real>, n: int, minAreaMm2: real, near: int -> seq<Candidate>, tol: Tolerance): (p: Plan)
    ensures p.NoData? <==> areas == []
    ensures p.Unchanged? <==> areas != [] && forall j :: 0 <= j < |areas| ==> areas[j] >= Threshold(n, minAreaMm2)
  {
    var thr := Threshold(n, minAreaMm2);
    var smalls := Select(areas, thr, true);
    if areas == [] then NoData
    else if smalls == [] then
      NoneSelectedSmall(areas, thr);
      Unchanged
    else
      SelectMembers(areas, thr, true, smalls[0]);
      var bigs := Select(areas, thr, false);
      var choices := if bigs != [] then NearChoices(smalls, near, BigAreas(areas, thr), tol)
                     else FallbackChoices(smalls, IdxMax(areas));
      Merge(UnionFold(smalls, choices), DropFold(smalls, choices))
  }

  /** The bookkeeping loop: setdefault(t, []).append(s) and to_drop.add(s) for every chosen target. */
  method Assign(smalls: seq<int>, choices: seq<Option<int>>) returns (toUnion: map<int, seq<int>>, toDrop: set<int>)
    requires |smalls| == |choices|
    ensures toUnion == UnionFold(smalls, choices) && toDrop == DropFold(smalls, choices)
  {
    toUnion, toDrop := map[], {};
    var k := 0;
    while k < |smalls|
      invariant 0 <= k <= |smalls|
      invariant toUnion == UnionFold(smalls[..k], choices[..k]) && toDrop == DropFold(smalls[..k], choices[..k])
    {
      assert Init(smalls[..k + 1]) == smalls[..k] && Last(smalls[..k + 1]) == smalls[k];
      assert Init(choices[..k + 1]) == choices[..k] && Last(choices[..k + 1]) == choices[k];
      var c := choices[k];
      if c.Some? {
        var t := c.value;
        toUnion := toUnion[t := (if t in toUnion then toUnion[t] else []) + [smalls[k]]];
        toDrop := toDrop + {smalls[k]};
      }
      k := k + 1;
    }
    assert smalls[..k] == smalls && choices[..k] == choices;
  }

  /** cull_small_parts_by_scale's decisions: threshold, partition, per-feature choice or the fallback. */
  method CullSmallParts(areas: seq<real>, n: int, minAreaMm2: real, near: int -> seq<Candidate>, tol: Tolerance)
    returns (plan: Plan)
    ensures plan == CullPlan(areas, n, minAreaMm2, near, tol)
  {
    if areas == [] {
      return NoData;
    }
    var thr := Threshold(n, minAreaMm2);
    var smalls := Select(areas, thr, true);
    if smalls == [] {
      return Unchanged;
    }
    var bigs := Select(areas, thr, false);
    var choices: seq<Option<int>>;
    if bigs != [] {
      var bigArea := BigAreas(areas, thr);
      choices := [];
      var k := 0;
      while k < |smalls|
        invariant 0 <= k <= |smalls|
        invariant choices == NearChoices(smalls, near, bigArea, tol)[..k]
      {
        var t := ChooseTarget(smalls[k], near(smalls[k]), bigArea, tol);
        choices := choices + [t];
        k := k + 1;
      }
      assert choices == NearChoices(smalls, near, bigArea, tol);
    } else {
      SelectMembers(areas, thr, true, smalls[0]);
      choices := FallbackChoices(smalls, IdxMax(areas));
    }
    var toUnion, toDrop := Assign(smalls, choices);
    plan := Merge(toUnion, toDrop);
  }

  /** Big features are never dropped. */
  lemma BigFeaturesSurvive(areas: seq<real>, n: int, minAreaMm2: real, near: int -> seq<Candidate>, tol: Tolerance, i: int)
    requires 0 <= i < |areas| && areas[i] >= Threshold(n, minAreaMm2)
    ensures var p := CullPlan(areas, n, minAreaMm2, near, tol);
      p.Merge? ==> i !in p.toDrop
  {
    var thr := Threshold(n, minAreaMm2);
    var smalls := Select(areas, thr, true);
    var p := CullPlan(areas, n, minAreaMm2, near, tol);
    if p.Merge? {
      var bigs := Select(areas, thr, false);
      var choices := if bigs != [] then NearChoices(smalls, near, BigAreas(areas, thr), tol)
                     else FallbackChoices(smalls, IdxMax(areas));
      DropMeaning(smalls, choices, i);
      SelectMembers(areas, thr, true, i);
    }
  }

  /** No position is selected when no area falls on that side of the threshold. */
  lemma {:induction false} NoneSelected(areas: seq<real>, thr: real, small: bool)
    requires forall j :: 0 <= j < |areas| ==> (areas[j] < thr) != small
    ensures Select(areas, thr, small) == []
  {
    if areas != [] {
      var init := Init(areas);
      assert forall j :: 0 <= j < |init| ==> init[j] == areas[j];
      NoneSelected(init, thr, small);
    }
  }

  /** When no position is selected as small, every area reaches the threshold. */
  lemma NoneSelectedSmall(areas: seq<real>, thr: real)
    requires Select(areas, thr, true) == []
    ensures forall j :: 0 <= j < |areas| ==> areas[j] >= thr
  {
    forall j | 0 <= j < |areas| ensures areas[j] >= thr {
      SelectMembers(areas, thr, true, j);
    }
  }

  /** With every feature small, the plan is the fallback over all of them. */
  lemma CullPlanAllSmall(areas: seq<real>, n: int, minAreaMm2: real, near: int -> seq<Candidate>, tol: Tolerance)
    requires areas != [] && forall j :: 0 <= j < |areas| ==> areas[j] < Threshold(n, minAreaMm2)
    ensures var smalls := Select(areas, Threshold(n, minAreaMm2), true);
      var choices := FallbackChoices(smalls, IdxMax(areas));
      smalls != [] && CullPlan(areas, n, minAreaMm2, near, tol) == Merge(UnionFold(smalls, choices), DropFold(smalls, choices))
  {
    var thr := Threshold(n, minAreaMm2);
    NoneSelected(areas, thr, false);
    SelectMembers(areas, thr, true, 0);
  }

  /** The fallback drops every small feature but the target. */
  lemma FallbackDrops(smalls: seq<int>, tgt: int, x: int)
    ensures x in DropFold(smalls, FallbackChoices(smalls, tgt)) <==> x in smalls && x != tgt
  {
    var choices := FallbackChoices(smalls, tgt);
    DropMeaning(smalls, choices, x);
    if x in smalls && x != tgt {
      var k :| 0 <= k < |smalls| && smalls[k] == x;
      assert choices[k].Some?;
    }
  }

  /** The fallback merges every small feature but the target into the target, once another exists. */
  lemma FallbackUnites(smalls: seq<int>, tgt: int, other: int, x: int)
    requires other in smalls && other != tgt
    ensures var u := UnionFold(smalls, FallbackChoices(smalls, tgt));
      tgt in u && (x in u[tgt] <==> x in smalls && x != tgt)
  {
    var choices := FallbackChoices(smalls, tgt);
    var ko :| 0 <= ko < |smalls| && smalls[ko] == other;
    assert choices[ko] == Some(tgt);
    UnionMeaning(smalls, choices, tgt);
    AssignedMembers(smalls, choices, tgt, x);
    if x in smalls && x != tgt {
      var k :| 0 <= k < |smalls| && smalls[k] == x;
      assert choices[k] == Some(tgt);
    }
  }

  /**
   * When every feature is small, all of them but the first of largest area
   * are dropped and merged into it.
   */
  lemma AllSmallKeepsLargest(areas: seq<real>, n: int, minAreaMm2: real, near: int -> seq<Candidate>, tol: Tolerance, i: int)
    requires areas != [] && forall j :: 0 <= j < |areas| ==> areas[j] < Threshold(n, minAreaMm2)
    requires 0 <= i < |areas|
    ensures var p := CullPlan(areas, n, minAreaMm2, near, tol);
      var tgt := IdxMax(areas);
      && p.Merge?
      && (i in p.toDrop <==> i != tgt)
      && (|areas| > 1 ==> tgt in p.toUnion && (i in p.toUnion[tgt] <==> i != tgt))
  {
    var thr := Threshold(n, minAreaMm2);
    var smalls := Select(areas, thr, true);
    var tgt := IdxMax(areas);
    CullPlanAllSmall(areas, n, minAreaMm2, near, tol);
    SelectMembers(areas, thr, true, i);
    FallbackDrops(smalls, tgt, i);
    if |areas| > 1 {
      var other := if tgt == 0 then 1 else 0;
      SelectMembers(areas, thr, true, other);
      FallbackUnites(smalls, tgt, other, i);
    }
  }

  lemma {:induction false} AssignedMembers(smalls: seq<int>, choices: seq<Option<int>>, t: int, x: int)
    requires |smalls| == |choices|
    ensures x in AssignedTo(smalls, choices, t) <==> exists k :: 0 <= k < |smalls| && smalls[k] == x && choices[k] == Some(t)
  {
    if smalls != [] {
      var si, ci := Init(smalls), Init(choices);
      AssignedMembers(si, ci, t, x);
      assert forall k :: 0 <= k < |si| ==> si[k] == smalls[k] && ci[k] == choices[k];
      assert smalls[|smalls| - 1] == Last(smalls) && choices[|choices| - 1] == Last(choices);
    }
  }
}
