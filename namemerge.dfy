/**
 * The name merge and the Cenozoic collapse of GeoSiglaStyler.classify, and
 * _pick_canonical_grp.  Features sharing a normalised unit name
 * (NOME_UNIDA) form a cluster; a cluster whose members carry several
 * groups but agree on the age rules is pulled onto one canonical group,
 * the one ranked first by (larger global weight, larger weight within the
 * cluster, smaller name).  The feature table is an array updated in place.
 */
module NameMerge {
  import opened Common
  import opened AgeDomino

  /** One feature as the merge sees it. */
  datatype Feature = Feature(
    name: Option<string>, group: string, dominoOk: bool, macroEra: Option<Macro>, area: real)

  // ----------------------------------------------------- _norm_nome_value

  /** `re.sub(r"\s+", " ", t)`: each run of white space becomes one blank. */
  function CollapseSpaces(s: string): (r: string)
    ensures forall i :: 0 <= i < |r| && IsSpace(r[i]) ==> r[i] == ' '
    ensures forall i :: 0 <= i < |r| - 1 ==> !(IsSpace(r[i]) && IsSpace(r[i + 1]))
    ensures |r| <= |s|
    ensures s != [] ==> r != [] && (IsSpace(r[0]) <==> IsSpace(s[0]))
    decreases |s|
  {
    if s == [] then []
    else if IsSpace(s[0]) then
      var t := TrimLeft(s[1..]);
      var rest := CollapseSpaces(t);
      assert rest != [] ==> !IsSpace(rest[0]);
      [' '] + rest
    else [s[0]] + CollapseSpaces(s[1..])
  }

  /**
   * _norm_nome_value: stripped, white space collapsed, upper-cased; a
   * missing value is the empty name.
   */
  function NormName(x: Option<string>): string {
    if x.None? then ""
    else
      var t := Strip(x.value);
      if t == "" then "" else Upper(CollapseSpaces(t))
  }

  /**
   * A normalised name has no lower-case letter, no white space at either
   * end, and no two white-space characters in a row.
   */
  lemma NormNameShape(x: Option<string>)
    ensures var r := NormName(x);
      && (forall i :: 0 <= i < |r| ==> !IsLowerAscii(r[i]))
      && (r != [] ==> !IsSpace(r[0]) && !IsSpace(r[|r| - 1]))
      && (forall i :: 0 <= i < |r| - 1 ==> !(IsSpace(r[i]) && IsSpace(r[i + 1])))
  {
    if x.Some? && Strip(x.value) != "" {
      var t := Strip(x.value);
      var c := CollapseSpaces(t);
      CollapsedEnds(t);
      UpperShape(c);
    }
  }

  /** A stripped, non-empty text keeps non-space ends once its spaces are collapsed. */
  lemma CollapsedEnds(t: string)
    requires t != [] && !IsSpace(t[0]) && !IsSpace(t[|t| - 1])
    ensures var c := CollapseSpaces(t); c != [] && !IsSpace(c[0]) && !IsSpace(c[|c| - 1])
  {
    CollapseKeepsLastNonSpace(t);
  }

  /** Upper-casing leaves no lower-case letter and keeps every space where it was. */
  lemma UpperShape(c: string)
    requires c != [] ==> !IsSpace(c[0]) && !IsSpace(c[|c| - 1])
    requires forall i :: 0 <= i < |c| - 1 ==> !(IsSpace(c[i]) && IsSpace(c[i + 1]))
    ensures var r := Upper(c);
      && (forall i :: 0 <= i < |r| ==> !IsLowerAscii(r[i]))
      && (r != [] ==> !IsSpace(r[0]) && !IsSpace(r[|r| - 1]))
      && (forall i :: 0 <= i < |r| - 1 ==> !(IsSpace(r[i]) && IsSpace(r[i + 1])))
  {
    UpperKeepsSpaces(c);
  }

  lemma UpperKeepsSpaces(c: string)
    ensures forall i :: 0 <= i < |c| ==> (IsSpace(Upper(c)[i]) <==> IsSpace(c[i]))
  {
  }

  lemma {:induction false} TrimLeftKeepsLast(s: string)
    requires s != [] && !IsSpace(s[|s| - 1])
    ensures var t := TrimLeft(s); t != [] && t[|t| - 1] == s[|s| - 1]
    decreases |s|
  {
    if IsSpace(s[0]) {
      assert |s| > 1;
      assert s[1..][|s[1..]| - 1] == s[|s| - 1];
      TrimLeftKeepsLast(s[1..]);
    }
  }

  lemma {:induction false} CollapseKeepsLastNonSpace(s: string)
    requires s != [] && !IsSpace(s[|s| - 1])
    ensures var r := CollapseSpaces(s); r != [] && !IsSpace(r[|r| - 1])
    decreases |s|
  {
    if IsSpace(s[0]) {
      assert |s| > 1;
      assert s[1..][|s[1..]| - 1] == s[|s| - 1];
      TrimLeftKeepsLast(s[1..]);
      CollapseKeepsLastNonSpace(TrimLeft(s[1..]));
    } else if |s| > 1 {
      assert s[1..][|s[1..]| - 1] == s[|s| - 1];
      CollapseKeepsLastNonSpace(s[1..]);
    }
  }

  function Groups(ms: seq<Feature>): (r: seq<string>)
    ensures |r| == |ms| && forall i :: 0 <= i < |ms| ==> r[i] == ms[i].group
  {
    seq(|ms|, i requires 0 <= i < |ms| => ms[i].group)
  }

  /** The groups that count in classify: neither empty nor "nan". */
  function Counted(gs: seq<string>): (r: seq<string>)
    ensures forall x :: x in r <==> x in gs && x != "" && x != "nan"
  {
    if gs == [] then []
    else (if gs[0] != "" && gs[0] != "nan" then [gs[0]] else []) + Counted(gs[1..])
  }

  /** The distinct groups of a cluster that take part in the merge. */
  function Candidates(ms: seq<Feature>): (r: seq<string>)
    ensures forall x :: x in r <==> (x != "" && x != "nan" && exists i :: 0 <= i < |ms| && ms[i].group == x)
    ensures forall i, j :: 0 <= i < j < |r| ==> r[i] != r[j]
  {
    var gs := Groups(ms);
    var r := Unique(Counted(gs));
    assert forall x :: x in gs <==> exists i :: 0 <= i < |ms| && ms[i].group == x;
    r
  }

  // ----------------------------------------------------------- weights

  /** Count, or area sum, of the features of group `g`. */
  function Weight(rs: seq<Feature>, g: string, areaWeighted: bool): real {
    if rs == [] then 0.0
    else
      (if rs[|rs| - 1].group == g then (if areaWeighted then rs[|rs| - 1].area else 1.0) else 0.0)
      + Weight(rs[..|rs| - 1], g, areaWeighted)
  }

  // --------------------------------------------------------- best by key

  /**
   * `g` sorts before `h` under the key (-w1, -w2, name): larger first
   * weight, then larger second weight, then smaller name.
   */
  predicate KeyLess(w1: string -> real, w2: string -> real, g: string, h: string) {
    w1(g) > w1(h) || (w1(g) == w1(h) && (w2(g) > w2(h) || (w2(g) == w2(h) && StrLt(g, h))))
  }

  lemma KeyLessIrreflexive(w1: string -> real, w2: string -> real, g: string)
    ensures !KeyLess(w1, w2, g, g)
  {
    StrLtIrreflexive(g);
  }

  lemma KeyLessTotal(w1: string -> real, w2: string -> real, g: string, h: string)
    ensures g == h || KeyLess(w1, w2, g, h) || KeyLess(w1, w2, h, g)
  {
    StrLtTotal(g, h);
  }

  lemma KeyLessAsymmetric(w1: string -> real, w2: string -> real, g: string, h: string)
    ensures !(KeyLess(w1, w2, g, h) && KeyLess(w1, w2, h, g))
  {
    StrLtAsymmetric(g, h);
  }

  lemma KeyLessTransitive(w1: string -> real, w2: string -> real, f: string, g: string, h: string)
    requires KeyLess(w1, w2, f, g) && KeyLess(w1, w2, g, h)
    ensures KeyLess(w1, w2, f, h)
  {
    if StrLt(f, g) && StrLt(g, h) {
      StrLtTransitive(f, g, h);
    }
  }

  /** `sorted(cands, key=...)[0]`: the first candidate no other one precedes. */
  function Best(cands: seq<string>, w1: string -> real, w2: string -> real): string
    requires cands != []
  {
    if |cands| == 1 then cands[0]
    else
      var r := Best(cands[1..], w1, w2);
      if KeyLess(w1, w2, r, cands[0]) then r else cands[0]
  }

  /** The chosen group is a candidate and no candidate sorts before it. */
  lemma {:induction false} BestIsFirst(cands: seq<string>, w1: string -> real, w2: string -> real)
    requires cands != []
    ensures Best(cands, w1, w2) in cands
    ensures forall h :: h in cands ==> !KeyLess(w1, w2, h, Best(cands, w1, w2))
  {
    if |cands| == 1 {
      KeyLessIrreflexive(w1, w2, cands[0]);
    } else {
      var tail := cands[1..];
      BestIsFirst(tail, w1, w2);
      var r := Best(tail, w1, w2);
      var c := cands[0];
      assert forall h :: h in cands ==> h == c || h in tail;
      if KeyLess(w1, w2, r, c) {
        KeyLessAsymmetric(w1, w2, r, c);
      } else {
        KeyLessIrreflexive(w1, w2, c);
        forall h | h in tail
          ensures !KeyLess(w1, w2, h, c)
        {
          if KeyLess(w1, w2, h, c) {
            KeyLessTotal(w1, w2, h, r);
            if h != r {
              KeyLessTransitive(w1, w2, r, h, c);
            }
          }
        }
      }
    }
  }

  /** The first element under a total key is unique: any candidate that nothing precedes is it. */
  lemma BestUnique(cands: seq<string>, w1: string -> real, w2: string -> real, g: string)
    requires g in cands && forall h :: h in cands ==> !KeyLess(w1, w2, h, g)
    ensures g == Best(cands, w1, w2)
  {
    BestIsFirst(cands, w1, w2);
    KeyLessTotal(w1, w2, g, Best(cands, w1, w2));
  }

  // ---------------------------------------------------- _pick_canonical_grp

  /** `str(v).lower() != "nan"`. */
  predicate IsNanText(g: string) { Lower(g) == "nan" }

  function KeptForPick(gs: seq<string>): (r: seq<string>)
    ensures forall x :: x in r <==> x in gs && x != "" && !IsNanText(x)
  {
    if gs == [] then []
    else (if gs[0] != "" && !IsNanText(gs[0]) then [gs[0]] else []) + KeptForPick(gs[1..])
  }

  function NonEmpty(gs: seq<string>): (r: seq<string>)
    ensures forall x :: x in r <==> x in gs && x != ""
  {
    if gs == [] then []
    else (if gs[0] != "" then [gs[0]] else []) + NonEmpty(gs[1..])
  }

  /**
   * _pick_canonical_grp: no group when the cluster has none worth keeping,
   * the only one when there is one, otherwise the heaviest group (count,
   * or area sum) with ties to the smaller name.  The weight table is built
   * from every non-empty group, "nan"-like ones included, as in the source.
   */
  function PickCanonical(ms: seq<Feature>, areaWeighted: bool): (r: Option<string>)
    ensures r.None? <==> forall i :: 0 <= i < |ms| ==> ms[i].group == "" || IsNanText(ms[i].group)
    ensures r.Some? ==> r.value != "" && exists i :: 0 <= i < |ms| && ms[i].group == r.value
  {
    var gs := Groups(ms);
    var grps := Unique(KeptForPick(gs));
    NothingKept(ms);
    if grps == [] then None
    else if |grps| == 1 then
      InGroups(ms, grps[0]);
      Some(grps[0])
    else
      var keys := Unique(NonEmpty(gs));
      assert grps[0] in KeptForPick(gs);
      assert grps[0] in keys;
      var best := Best(keys, g => Weight(ms, g, areaWeighted), g => 0.0);
      BestIsFirst(keys, g => Weight(ms, g, areaWeighted), g => 0.0);
      InGroups(ms, best);
      Some(best)
  }

  /** No group is kept for the pick exactly when every group is empty or "nan"-like. */
  lemma NothingKept(ms: seq<Feature>)
    ensures Unique(KeptForPick(Groups(ms))) == [] <==>
      forall i :: 0 <= i < |ms| ==> ms[i].group == "" || IsNanText(ms[i].group)
  {
    var gs := Groups(ms);
    if Unique(KeptForPick(gs)) == [] {
      forall i | 0 <= i < |ms| ensures ms[i].group == "" || IsNanText(ms[i].group) {
        assert gs[i] in gs;
      }
    } else {
      var x := Unique(KeptForPick(gs))[0];
      assert x in KeptForPick(gs);
      InGroups(ms, x);
    }
  }

  lemma InGroups(ms: seq<Feature>, x: string)
    requires x in Groups(ms)
    ensures exists i :: 0 <= i < |ms| && ms[i].group == x
  {
    var i :| 0 <= i < |ms| && Groups(ms)[i] == x;
  }

  /**
   * With several groups to choose from, the pick has the largest weight in
   * the cluster, and among groups of that weight the smallest name.
   */
  lemma PickCanonicalHeaviest(ms: seq<Feature>, areaWeighted: bool, h: string)
    requires |Unique(KeptForPick(Groups(ms)))| >= 2
    requires h != "" && exists i :: 0 <= i < |ms| && ms[i].group == h
    ensures var r := PickCanonical(ms, areaWeighted).value;
      && Weight(ms, h, areaWeighted) <= Weight(ms, r, areaWeighted)
      && (Weight(ms, h, areaWeighted) == Weight(ms, r, areaWeighted) ==> StrLe(r, h))
  {
    var gs := Groups(ms);
    var keys := Unique(NonEmpty(gs));
    var w1 := g => Weight(ms, g, areaWeighted);
    var w0 := (g: string) => 0.0;
    BestIsFirst(keys, w1, w0);
    var r := Best(keys, w1, w0);
    assert h in gs;
    assert h in keys;
    assert !KeyLess(w1, w0, h, r);
    StrLtTotal(r, h);
  }

  // ------------------------------------------------------------- clusters

  /** The features of the cluster named `nm`, in table order. */
  function Members(rs: seq<Feature>, nm: string): (r: seq<Feature>)
    ensures forall f :: f in r <==> f in rs && NormName(f.name) == nm
  {
    if rs == [] then []
    else Members(rs[..|rs| - 1], nm)
         + (if NormName(rs[|rs| - 1].name) == nm then [rs[|rs| - 1]] else [])
  }

  /** At most one distinct non-empty macro era among the members. */
  predicate OneMacro(ms: seq<Feature>) {
    forall i, j :: 0 <= i < |ms| && 0 <= j < |ms| && ms[i].macroEra.Some? && ms[j].macroEra.Some? ==>
      ms[i].macroEra == ms[j].macroEra
  }

  /** The conditions under which classify merges a named cluster. */
  predicate Mergeable(nm: string, ms: seq<Feature>) {
    && nm != ""
    && |Candidates(ms)| >= 2
    && (forall i :: 0 <= i < |ms| ==> ms[i].dominoOk)
    && OneMacro(ms)
  }

  /**
   * The canonical group of a mergeable cluster: global weights come from
   * the table as it stood before the merge, local ones from the cluster.
   */
  function Canonical(snapshot: seq<Feature>, ms: seq<Feature>, areaWeighted: bool): string
    requires Candidates(ms) != []
  {
    Best(Candidates(ms), g => Weight(snapshot, g, areaWeighted), g => Weight(ms, g, areaWeighted))
  }

  /** The group feature `j` ends with after the merge. */
  function MergedRow(rs: seq<Feature>, areaWeighted: bool, j: nat): Feature
    requires j < |rs|
  {
    var nm := NormName(rs[j].name);
    var ms := Members(rs, nm);
    if Mergeable(nm, ms) then rs[j].(group := Canonical(rs, ms, areaWeighted)) else rs[j]
  }

  function MergedRows(rs: seq<Feature>, areaWeighted: bool): (r: seq<Feature>)
    ensures |r| == |rs| && forall j :: 0 <= j < |rs| ==> r[j] == MergedRow(rs, areaWeighted, j)
  {
    seq(|rs|, j requires 0 <= j < |rs| => MergedRow(rs, areaWeighted, j))
  }

  /** The distinct normalised names of the table. */
  function Names(rs: seq<Feature>): (r: seq<string>)
    ensures forall j :: 0 <= j < |rs| ==> NormName(rs[j].name) in r
    ensures forall i, j :: 0 <= i < j < |r| ==> r[i] != r[j]
  {
    var ns := seq(|rs|, j requires 0 <= j < |rs| => NormName(rs[j].name));
    assert forall j :: 0 <= j < |rs| ==> ns[j] == NormName(rs[j].name) && ns[j] in ns;
    Unique(ns)
  }

  /** Clusters see only their own members: rows of other names do not matter. */
  lemma {:induction false} MembersAgree(a: seq<Feature>, b: seq<Feature>, nm: string)
    requires |a| == |b|
    requires forall j :: 0 <= j < |a| ==> a[j].name == b[j].name
    requires forall j :: 0 <= j < |a| && NormName(a[j].name) == nm ==> a[j] == b[j]
    ensures Members(a, nm) == Members(b, nm)
  {
    if a != [] {
      MembersAgree(a[..|a| - 1], b[..|b| - 1], nm);
    }
  }

  /** The table with every row of cluster `nm` moved to group `canon`. */
  function Assigned(cur: seq<Feature>, nm: string, canon: string): (r: seq<Feature>)
    ensures |r| == |cur|
    ensures forall i :: 0 <= i < |cur| ==>
      r[i] == (if NormName(cur[i].name) == nm then cur[i].(group := canon) else cur[i])
  {
    seq(|cur|, i requires 0 <= i < |cur| =>
      if NormName(cur[i].name) == nm then cur[i].(group := canon) else cur[i])
  }

  /** `g.loc[sub.index, "coarse_grp"] = canon`: the cluster's rows take `canon`. */
  method AssignCluster(rows: array<Feature>, nm: string, canon: string)
    modifies rows
    ensures rows[..] == Assigned(old(rows[..]), nm, canon)
  {
    ghost var before := rows[..];
    var j := 0;
    while j < rows.Length
      invariant 0 <= j <= rows.Length
      invariant forall i :: 0 <= i < j ==>
        rows[i] == Assigned(before, nm, canon)[i]
      invariant forall i :: j <= i < rows.Length ==> rows[i] == before[i]
    {
      var f := rows[j];
      if NormName(f.name) == nm {
        rows[j] := f.(group := canon);
      }
      j := j + 1;
    }
    assert rows[..] == Assigned(before, nm, canon);
  }

  /** The table after the clusters named in `done` have been merged. */
  ghost predicate MergedUpTo(cur: seq<Feature>, global: seq<Feature>, areaWeighted: bool, done: set<string>) {
    && |cur| == |global|
    && (forall j :: 0 <= j < |cur| ==> cur[j].name == global[j].name)
    && (forall j :: 0 <= j < |cur| ==>
          cur[j] == (if NormName(global[j].name) in done then MergedRow(global, areaWeighted, j) else global[j]))
  }

  /** Merging one more mergeable cluster, from the current table, extends the merge by its name. */
  lemma ClusterStepMerge(cur: seq<Feature>, global: seq<Feature>, areaWeighted: bool, done: set<string>,
                         nm: string, canon: string)
    requires MergedUpTo(cur, global, areaWeighted, done) && nm !in done
    requires Mergeable(nm, Members(cur, nm)) && canon == Canonical(global, Members(cur, nm), areaWeighted)
    ensures MergedUpTo(Assigned(cur, nm, canon), global, areaWeighted, done + {nm})
  {
    MembersAgree(cur, global, nm);
    var next := Assigned(cur, nm, canon);
    forall j | 0 <= j < |cur|
      ensures next[j] == (if NormName(global[j].name) in done + {nm} then MergedRow(global, areaWeighted, j)
                          else global[j])
    {
      MergeStepRow(cur, global, areaWeighted, done, nm, canon, j);
    }
  }

  /** One row of the merge step: a member of `nm` takes its merged group, any other row keeps its state. */
  lemma MergeStepRow(cur: seq<Feature>, global: seq<Feature>, areaWeighted: bool, done: set<string>,
                     nm: string, canon: string, j: nat)
    requires j < |cur| == |global| && cur[j].name == global[j].name && nm !in done
    requires cur[j] == (if NormName(global[j].name) in done then MergedRow(global, areaWeighted, j) else global[j])
    requires Members(cur, nm) == Members(global, nm)
    requires Mergeable(nm, Members(global, nm)) && canon == Canonical(global, Members(global, nm), areaWeighted)
    ensures Assigned(cur, nm, canon)[j] ==
      (if NormName(global[j].name) in done + {nm} then MergedRow(global, areaWeighted, j) else global[j])
  {
  }

  /** A cluster that is not mergeable is left as it is. */
  lemma ClusterStepKeep(cur: seq<Feature>, global: seq<Feature>, areaWeighted: bool, done: set<string>,
                        nm: string)
    requires MergedUpTo(cur, global, areaWeighted, done) && nm !in done
    requires !Mergeable(nm, Members(cur, nm))
    ensures MergedUpTo(cur, global, areaWeighted, done + {nm})
  {
    MembersAgree(cur, global, nm);
  }

  /**
   * The name merge of classify, cluster by cluster over the table.  Global
   * weights are taken once, before the first cluster is merged.
   */
  method MergeByName(rows: array<Feature>, areaWeighted: bool)
    modifies rows
    ensures rows[..] == MergedRows(old(rows[..]), areaWeighted)
  {
    var global := rows[..];
    var names := Names(global);
    ghost var done: set<string> := {};
    NothingMergedYet(global, areaWeighted);
    var k := 0;
    while k < |names|
      invariant 0 <= k <= |names|
      invariant forall i :: 0 <= i < |names| ==> (names[i] in done <==> i < k)
      invariant MergedUpTo(rows[..], global, areaWeighted, done)
    {
      NextName(names, done, k);
      MergeCluster(rows, global, areaWeighted, names[k], done);
      done := done + {names[k]};
      k := k + 1;
    }
    AllNamesDone(rows[..], global, areaWeighted, done, names);
  }

  /** With distinct names, the names done are exactly a prefix, and the next one is new. */
  lemma NextName(names: seq<string>, done: set<string>, k: int)
    requires 0 <= k < |names|
    requires forall i, j :: 0 <= i < j < |names| ==> names[i] != names[j]
    requires forall i :: 0 <= i < |names| ==> (names[i] in done <==> i < k)
    ensures names[k] !in done
    ensures forall i :: 0 <= i < |names| ==> (names[i] in done + {names[k]} <==> i < k + 1)
  {
  }

  /** One pass of the loop over names: merge the cluster `nm` if it qualifies. */
  method MergeCluster(rows: array<Feature>, global: seq<Feature>, areaWeighted: bool, nm: string,
                      ghost done: set<string>)
    modifies rows
    requires MergedUpTo(rows[..], global, areaWeighted, done) && nm !in done
    ensures MergedUpTo(rows[..], global, areaWeighted, done + {nm})
  {
    var sub := Members(rows[..], nm);
    if Mergeable(nm, sub) {
      var canon := Canonical(global, sub, areaWeighted);
      ClusterStepMerge(rows[..], global, areaWeighted, done, nm, canon);
      AssignCluster(rows, nm, canon);
    } else {
      ClusterStepKeep(rows[..], global, areaWeighted, done, nm);
    }
  }

  lemma NothingMergedYet(global: seq<Feature>, areaWeighted: bool)
    ensures MergedUpTo(global, global, areaWeighted, {})
  {
  }

  lemma AllNamesDone(cur: seq<Feature>, global: seq<Feature>, areaWeighted: bool, done: set<string>,
                     names: seq<string>)
    requires MergedUpTo(cur, global, areaWeighted, done)
    requires forall j :: 0 <= j < |global| ==> NormName(global[j].name) in names
    requires forall i :: 0 <= i < |names| ==> names[i] in done
    ensures cur == MergedRows(global, areaWeighted)
  {
  }

  // ---------------------------------------------------- merge properties

  /** Only members of mergeable clusters change, and only their group. */
  lemma MergeTouchesOnlyGroups(rs: seq<Feature>, areaWeighted: bool, j: nat)
    requires j < |rs|
    ensures var f := MergedRows(rs, areaWeighted)[j];
      && f.(group := rs[j].group) == rs[j]
      && (f != rs[j] ==> Mergeable(NormName(rs[j].name), Members(rs, NormName(rs[j].name))))
  {
  }

  /**
   * Every member of a merged cluster, those with an empty group too, ends
   * in the same group, which is one the cluster already had and which no
   * other candidate precedes under the ranking key.
   */
  lemma MergedClusterAgrees(rs: seq<Feature>, areaWeighted: bool, i: nat, j: nat)
    requires i < |rs| && j < |rs| && NormName(rs[i].name) == NormName(rs[j].name)
    requires Mergeable(NormName(rs[i].name), Members(rs, NormName(rs[i].name)))
    ensures var m := MergedRows(rs, areaWeighted);
      var ms := Members(rs, NormName(rs[i].name));
      && m[i].group == m[j].group
      && m[i].group in Candidates(ms)
      && forall h :: h in Candidates(ms) ==>
           !KeyLess(g => Weight(rs, g, areaWeighted), g => Weight(ms, g, areaWeighted), h, m[i].group)
  {
    var ms := Members(rs, NormName(rs[i].name));
    BestIsFirst(Candidates(ms), g => Weight(rs, g, areaWeighted), g => Weight(ms, g, areaWeighted));
  }

  /** A cluster whose members all carry one group offers at most one candidate. */
  lemma OneGroupOneCandidate(ms: seq<Feature>, c: string)
    requires forall i :: 0 <= i < |ms| ==> ms[i].group == c
    ensures |Candidates(ms)| <= 1
  {
    var gs := Groups(ms);
    assert forall x :: x in gs ==> x == c;
    UniqueOfConstant(Counted(gs), c);
  }

  lemma {:induction false} UniqueOfConstant(xs: seq<string>, c: string)
    requires forall x :: x in xs ==> x == c
    ensures |Unique(xs)| <= 1
  {
    if xs != [] {
      var init := xs[..|xs| - 1];
      assert forall x :: x in init ==> x in xs;
      UniqueOfConstant(init, c);
      var r := Unique(init);
      if r != [] {
        assert r[0] in init;
        assert xs[|xs| - 1] in xs;
        assert r[0] == c && xs[|xs| - 1] == c;
        assert xs[|xs| - 1] == r[0];
      }
    }
  }

  /** Each row of the merged table keeps its name. */
  lemma MergedRowName(rs: seq<Feature>, areaWeighted: bool, k: nat)
    requires k < |rs|
    ensures MergedRows(rs, areaWeighted)[k].name == rs[k].name
  {
  }

  lemma MergedRowGroup(rs: seq<Feature>, areaWeighted: bool, nm: string, k: nat)
    requires k < |rs| && NormName(rs[k].name) == nm && Mergeable(nm, Members(rs, nm))
    ensures MergedRows(rs, areaWeighted)[k].group == Canonical(rs, Members(rs, nm), areaWeighted)
  {
  }

  /** After the merge, a merged cluster carries a single group. */
  lemma MergedClusterSettled(rs: seq<Feature>, areaWeighted: bool, nm: string)
    requires Mergeable(nm, Members(rs, nm))
    ensures !Mergeable(nm, Members(MergedRows(rs, areaWeighted), nm))
  {
    var m := MergedRows(rs, areaWeighted);
    var canon := Canonical(rs, Members(rs, nm), areaWeighted);
    var mm := Members(m, nm);
    forall i | 0 <= i < |mm|
      ensures mm[i].group == canon
    {
      assert mm[i] in m && NormName(mm[i].name) == nm;
      var k :| 0 <= k < |m| && m[k] == mm[i];
      MergedRowName(rs, areaWeighted, k);
      MergedRowGroup(rs, areaWeighted, nm, k);
    }
    OneGroupOneCandidate(mm, canon);
  }

  /** A cluster the merge leaves alone is still not mergeable afterwards. */
  lemma UnmergedClusterKept(rs: seq<Feature>, areaWeighted: bool, nm: string)
    requires !Mergeable(nm, Members(rs, nm))
    ensures Members(MergedRows(rs, areaWeighted), nm) == Members(rs, nm)
  {
    MembersAgree(MergedRows(rs, areaWeighted), rs, nm);
  }

  /** Merging a second time changes nothing: every merged cluster is down to one group. */
  lemma MergeIdempotent(rs: seq<Feature>, areaWeighted: bool)
    ensures MergedRows(MergedRows(rs, areaWeighted), areaWeighted) == MergedRows(rs, areaWeighted)
  {
    var m := MergedRows(rs, areaWeighted);
    forall j | 0 <= j < |m|
      ensures MergedRow(m, areaWeighted, j) == m[j]
    {
      var nm := NormName(rs[j].name);
      assert m[j].name == rs[j].name;
      if Mergeable(nm, Members(rs, nm)) {
        MergedClusterSettled(rs, areaWeighted, nm);
      } else {
        UnmergedClusterKept(rs, areaWeighted, nm);
      }
    }
  }

  // ----------------------------------------------------- Cenozoic collapse

  /** The collapse's row test: Cenozoic, passing the age rules, with a group. */
  predicate CollapsesToCenozoic(f: Feature) {
    f.macroEra == Some(Cenozoic) && f.dominoOk && f.group != ""
  }

  /** collapse_cenozoic: every qualifying feature takes the single label. */
  method CollapseCenozoic(rows: array<Feature>, czLabel: string)
    modifies rows
    ensures forall j :: 0 <= j < rows.Length ==>
      rows[j] == (if CollapsesToCenozoic(old(rows[j])) then old(rows[j]).(group := czLabel) else old(rows[j]))
  {
    var j := 0;
    while j < rows.Length
      invariant 0 <= j <= rows.Length
      invariant forall i :: 0 <= i < rows.Length ==>
        rows[i] == (if i < j && CollapsesToCenozoic(old(rows[i])) then old(rows[i]).(group := czLabel)
                    else old(rows[i]))
    {
      if CollapsesToCenozoic(rows[j]) {
        rows[j] := rows[j].(group := czLabel);
      }
      j := j + 1;
    }
  }

  /** The collapse as a function of the table, for reasoning about repeats. */
  function Collapsed(rs: seq<Feature>, czLabel: string): (r: seq<Feature>)
    ensures |r| == |rs|
  {
    seq(|rs|, j requires 0 <= j < |rs| =>
      if CollapsesToCenozoic(rs[j]) then rs[j].(group := czLabel) else rs[j])
  }

  /**
   * With a non-empty czLabel the collapse is idempotent, and afterwards all
   * Cenozoic features that pass the age rules and have a group share it.
   */
  lemma CollapseIdempotent(rs: seq<Feature>, czLabel: string)
    requires czLabel != ""
    ensures Collapsed(Collapsed(rs, czLabel), czLabel) == Collapsed(rs, czLabel)
    ensures forall j :: 0 <= j < |rs| && CollapsesToCenozoic(Collapsed(rs, czLabel)[j]) ==>
              Collapsed(rs, czLabel)[j].group == czLabel
  {
  }
}
