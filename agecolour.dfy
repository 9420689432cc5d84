/**
 * Where GeoSiglaStyler finds colours: the age-code table flattened from
 * the rich era/name/config map, the longest-token-first search of an age
 * code's colour in it, and the SIGLA colour table filled from QML palettes
 * and consulted case-insensitively.
 *
 * Python dicts keep insertion order, which decides the search order, so
 * the flattened table is an association list with distinct keys.
 */
module AgeColour {
  import opened Common
  import AgeDomino

  // ------------------------------------------------- association lists

  type Assoc = seq<(string, string)>

  function Keys(al: Assoc): (ks: seq<string>)
    ensures |ks| == |al| && forall i :: 0 <= i < |al| ==> ks[i] == al[i].0
  {
    seq(|al|, i requires 0 <= i < |al| => al[i].0)
  }

  predicate DistinctKeys(al: Assoc) {
    forall i, j :: 0 <= i < j < |al| ==> al[i].0 != al[j].0
  }

  /** `d[k]` if present. */
  function Get(al: Assoc, k: string): (r: Option<string>)
    ensures r.Some? <==> k in Keys(al)
  {
    if al == [] then None
    else if al[|al| - 1].0 == k then Some(al[|al| - 1].1)
    else Get(al[..|al| - 1], k)
  }

  /** `d[k] = v`: an existing key keeps its place, a new one goes last. */
  function Put(al: Assoc, k: string, v: string): (r: Assoc)
    ensures forall x :: x in Keys(r) <==> x in Keys(al) || x == k
    ensures DistinctKeys(al) ==> DistinctKeys(r)
    ensures k in Keys(al) ==> Keys(r) == Keys(al)
    ensures k !in Keys(al) ==> Keys(r) == Keys(al) + [k]
  {
    if al == [] then
      assert Keys([(k, v)]) == [k];
      [(k, v)]
    else if al[|al| - 1].0 == k then
      var r := al[..|al| - 1] + [(k, v)];
      assert Keys(r) == Keys(al);
      r
    else if k !in Keys(al) then
      var r := al + [(k, v)];
      assert Keys(r) == Keys(al) + [k];
      r
    else
      var init := al[..|al| - 1];
      assert al == init + [al[|al| - 1]];
      var p := Put(init, k, v);
      PutBeforeLast(init, al[|al| - 1], k, p);
      p + [al[|al| - 1]]
  }

  /**
   * The keys after `d[k] = v` when k is already present before the last
   * pair: the pair is replaced in place, and the last pair stays last.
   */
  lemma PutBeforeLast(init: Assoc, last: (string, string), k: string, p: Assoc)
    requires last.0 != k && k in Keys(init)
    requires forall x :: x in Keys(p) <==> x in Keys(init) || x == k
    requires DistinctKeys(init) ==> DistinctKeys(p)
    requires Keys(p) == Keys(init)
    ensures var al, r := init + [last], p + [last];
      && (forall x :: x in Keys(r) <==> x in Keys(al) || x == k)
      && (DistinctKeys(al) ==> DistinctKeys(r))
      && Keys(r) == Keys(al)
  {
    var al, r := init + [last], p + [last];
    assert Keys(al) == Keys(init) + [last.0];
    assert Keys(r) == Keys(p) + [last.0];
    if DistinctKeys(al) {
      assert DistinctKeys(init) by {
        forall i, j | 0 <= i < j < |init| ensures init[i].0 != init[j].0 {
          assert init[i] == al[i] && init[j] == al[j];
        }
      }
      forall i | 0 <= i < |init| ensures Keys(init)[i] != last.0 {
        assert Keys(init)[i] == al[i].0 && al[|init|] == last;
        assert al[i].0 != al[|init|].0;
      }
      forall i, j | 0 <= i < j < |r| ensures r[i].0 != r[j].0 {
        if j == |r| - 1 {
          assert r[j] == last && r[i] == p[i];
          assert p[i].0 == Keys(p)[i] == Keys(init)[i];
        } else {
          assert r[i] == p[i] && r[j] == p[j];
          assert DistinctKeys(p);
        }
      }
    }
  }

  lemma {:induction false} GetPut(al: Assoc, k: string, v: string, x: string)
    ensures Get(Put(al, k, v), x) == if x == k then Some(v) else Get(al, x)
  {
    if al != [] && al[|al| - 1].0 != k {
      var init := al[..|al| - 1];
      GetPut(init, k, v, x);
      assert (Put(init, k, v) + [al[|al| - 1]])[..|Put(init, k, v)|] == Put(init, k, v);
    } else if al != [] {
      assert (al[..|al| - 1] + [(k, v)])[..|al| - 1] == al[..|al| - 1];
    }
  }

  // ------------------------------------------------ _flatten_idade_code_map

  /** One `{"code": ..., "color": ...}` entry; a missing key reads as "". */
  datatype AgeCfg = AgeCfg(code: string, color: string)

  /** The code under which an entry is filed: upper case, Cambrian spelled "C_CORTADO". */
  function NormCode(code: string): string {
    var u := Upper(code);
    if Lower(u) == "c_cortado" || u == "C_CORTADO" then "C_CORTADO" else u
  }

  lemma UpperOfLowerIs(u: string, w: string)
    requires Lower(u) == w && forall i :: 0 <= i < |u| ==> !IsLowerAscii(u[i])
    ensures u == Upper(w)
  {
    forall i | 0 <= i < |u|
      ensures Upper(w)[i] == u[i]
    {
      UpperOfLowerChar(u[i]);
    }
  }

  lemma UpperOfLowerChar(c: char)
    requires !IsLowerAscii(c)
    ensures UpperChar(LowerChar(c)) == c
  {
  }

  lemma CambrianUpper(w: string)
    requires w == "c_cortado"
    ensures Upper(w) == "C_CORTADO"
  {
  }

  /** The Cambrian respelling changes nothing on ASCII codes: the code is just upper-cased. */
  lemma NormCodeIsUpper(code: string)
    ensures NormCode(code) == Upper(code)
  {
    var u := Upper(code);
    if Lower(u) == "c_cortado" {
      assert forall i :: 0 <= i < |u| ==> !IsLowerAscii(u[i]);
      UpperOfLowerIs(u, "c_cortado");
      CambrianUpper("c_cortado");
    }
  }

  /** One step of the flattening loop. */
  function AddCfg(flat: Assoc, cfg: AgeCfg): Assoc {
    var code := NormCode(cfg.code);
    if code == "" then flat else Put(flat, code, cfg.color)
  }

  /** The flattening as a fold over the entries in dict order. */
  function FlattenCfgs(cfgs: seq<AgeCfg>): Assoc {
    if cfgs == [] then [] else AddCfg(FlattenCfgs(cfgs[..|cfgs| - 1]), cfgs[|cfgs| - 1])
  }

  /** Every entry of the rich map, era by era, name by name. */
  function AllCfgs(rich: seq<seq<AgeCfg>>): (r: seq<AgeCfg>)
  {
    if rich == [] then [] else AllCfgs(rich[..|rich| - 1]) + rich[|rich| - 1]
  }

  lemma FlattenStep(xs: seq<AgeCfg>, x: AgeCfg)
    ensures FlattenCfgs(xs + [x]) == AddCfg(FlattenCfgs(xs), x)
  {
    assert (xs + [x])[..|xs|] == xs;
  }

  lemma ExtendPrefix<T>(done: seq<T>, xs: seq<T>, j: nat)
    requires j < |xs|
    ensures done + xs[..j + 1] == (done + xs[..j]) + [xs[j]]
  {
    assert xs[..j + 1] == xs[..j] + [xs[j]];
  }

  lemma AllCfgsStep(rich: seq<seq<AgeCfg>>, i: nat)
    requires i < |rich|
    ensures AllCfgs(rich[..i + 1]) == AllCfgs(rich[..i]) + rich[i]
  {
    assert rich[..i + 1][..i] == rich[..i];
  }

  /** _flatten_idade_code_map (the era and unit names only group the entries). */
  method FlattenAgeMap(rich: seq<seq<AgeCfg>>) returns (flat: Assoc)
    ensures flat == FlattenCfgs(AllCfgs(rich))
  {
    flat := [];
    var i := 0;
    while i < |rich|
      invariant 0 <= i <= |rich|
      invariant flat == FlattenCfgs(AllCfgs(rich[..i]))
    {
      var sub := rich[i];
      ghost var done := AllCfgs(rich[..i]);
      var j := 0;
      assert done + sub[..j] == done;
      while j < |sub|
        invariant 0 <= j <= |sub|
        invariant flat == FlattenCfgs(done + sub[..j])
      {
        FlattenStep(done + sub[..j], sub[j]);
        ExtendPrefix(done, sub, j);
        flat := AddCfg(flat, sub[j]);
        j := j + 1;
      }
      AllCfgsStep(rich, i);
      assert sub[..j] == sub;
      i := i + 1;
    }
    assert rich[..i] == rich;
  }

  /** The colour of the last entry filed under `k`. */
  function LastColour(cfgs: seq<AgeCfg>, k: string): Option<string> {
    if cfgs == [] then None
    else if k != "" && NormCode(cfgs[|cfgs| - 1].code) == k then Some(cfgs[|cfgs| - 1].color)
    else LastColour(cfgs[..|cfgs| - 1], k)
  }

  /**
   * The flattened table has distinct, non-empty, upper-case keys, and each
   * code maps to the colour of the last entry filed under it.
   */
  lemma {:induction false} FlattenLastWins(cfgs: seq<AgeCfg>, k: string)
    ensures DistinctKeys(FlattenCfgs(cfgs))
    ensures forall i :: 0 <= i < |FlattenCfgs(cfgs)| ==>
              FlattenCfgs(cfgs)[i].0 != "" && FlattenCfgs(cfgs)[i].0 == Upper(FlattenCfgs(cfgs)[i].0)
    ensures Get(FlattenCfgs(cfgs), k) == LastColour(cfgs, k)
  {
    if cfgs != [] {
      var init := cfgs[..|cfgs| - 1];
      var c := cfgs[|cfgs| - 1];
      FlattenLastWins(init, k);
      var code := NormCode(c.code);
      NormCodeIsUpper(c.code);
      UpperIdempotent(c.code);
      if code != "" {
        GetPut(FlattenCfgs(init), code, c.color, k);
        var f := FlattenCfgs(cfgs);
        forall i | 0 <= i < |f|
          ensures f[i].0 != "" && f[i].0 == Upper(f[i].0)
        {
          assert f[i].0 in Keys(f);
          if f[i].0 != code {
            assert f[i].0 in Keys(FlattenCfgs(init));
            var j :| 0 <= j < |FlattenCfgs(init)| && Keys(FlattenCfgs(init))[j] == f[i].0;
          }
        }
      }
    }
  }

  lemma UpperIdempotent(s: string)
    ensures Upper(Upper(s)) == Upper(s)
  {
    assert forall i :: 0 <= i < |s| ==> UpperChar(UpperChar(s[i])) == UpperChar(s[i]);
  }

  // ----------------------------------------------------- _find_idade_color

  /** The keys of length `n`, in table order. */
  function OfLength(ks: seq<string>, n: nat): seq<string> {
    if ks == [] then []
    else (if |ks[0]| == n then [ks[0]] else []) + OfLength(ks[1..], n)
  }

  lemma {:induction false} OfLengthMembers(ks: seq<string>, n: nat)
    ensures forall x :: x in OfLength(ks, n) <==> x in ks && |x| == n
  {
    if ks != [] {
      OfLengthMembers(ks[1..], n);
    }
  }

  /** The keys no longer than `n`, longest first, table order among equals. */
  function LongestFirstUpTo(ks: seq<string>, n: nat): seq<string> {
    OfLength(ks, n) + if n == 0 then [] else LongestFirstUpTo(ks, n - 1)
  }

  lemma LongestFirstUpToMembers(ks: seq<string>, n: nat)
    ensures forall x :: x in LongestFirstUpTo(ks, n) <==> x in ks && |x| <= n
  {
    forall x ensures x in LongestFirstUpTo(ks, n) <==> x in ks && |x| <= n {
      LongestFirstUpToHas(ks, n, x);
    }
  }

  lemma {:induction false} LongestFirstUpToHas(ks: seq<string>, n: nat, x: string)
    ensures x in LongestFirstUpTo(ks, n) <==> x in ks && |x| <= n
  {
    var a := OfLength(ks, n);
    OfLengthMembers(ks, n);
    assert x in a <==> x in ks && |x| == n;
    if n == 0 {
      assert LongestFirstUpTo(ks, n) == a;
    } else {
      var b := LongestFirstUpTo(ks, n - 1);
      LongestFirstUpToHas(ks, n - 1, x);
      assert LongestFirstUpTo(ks, n) == a + b;
      assert x in a + b <==> x in a || x in b;
    }
  }

  function MaxLen(ks: seq<string>): (m: nat)
    ensures forall x :: x in ks ==> |x| <= m
  {
    if ks == [] then 0
    else var m := MaxLen(ks[1..]); if |ks[0]| > m then |ks[0]| else m
  }

  /** `sorted(keys, key=len, reverse=True)`: Python's sort is stable, reversed too. */
  function LongestFirst(ks: seq<string>): (r: seq<string>)
    ensures forall x :: x in r <==> x in ks
  {
    LongestFirstUpToMembers(ks, MaxLen(ks));
    LongestFirstUpTo(ks, MaxLen(ks))
  }

  /** The test a token must pass against the upper-cased code. */
  predicate TokenMatches(code: string, t: string) {
    if t == "P" then AgeDomino.HasPerm(code)
    else if t == "C_CORTADO" then Contains(code, "C_CORTADO")
    else StartsWith(code, t) || Contains(code, t)
  }

  /** For a plain token the `startswith` test adds nothing to the substring test. */
  lemma TokenMatchesPlain(code: string, t: string)
    requires t != "P" && t != "C_CORTADO"
    ensures TokenMatches(code, t) <==> Contains(code, t)
  {
    if StartsWith(code, t) {
      StartsWithContains(code, t);
    }
  }

  /** The token test for one code, as a predicate on tokens. */
  function Matcher(code: string): string -> bool {
    t => TokenMatches(code, t)
  }

  /** The first token that passes `p`, in the order given. */
  function FirstMatch(p: string -> bool, ts: seq<string>): (r: Option<string>)
    ensures r.Some? ==> r.value in ts && p(r.value)
    ensures r.None? ==> forall j :: 0 <= j < |ts| ==> !p(ts[j])
  {
    if ts == [] then None
    else if p(ts[0]) then Some(ts[0])
    else FirstMatch(p, ts[1..])
  }

  const FallbackTokens: seq<string> := ["NP", "MP", "PP", "A", "K", "J", "T", "Q", "N", "PG", "D", "S", "O", "C"]

  /** The fixed list tried after the sorted keys. */
  function FallbackMatch(code: string, flat: Assoc, ts: seq<string>): (r: Option<string>)
    ensures r.Some? ==> r.value in Keys(flat)
  {
    if ts == [] then None
    else if ts[0] in Keys(flat) && (StartsWith(code, ts[0]) || Contains(code, ts[0])) then Some(ts[0])
    else FallbackMatch(code, flat, ts[1..])
  }

  lemma FallbackTokensPlain()
    ensures forall t :: t in FallbackTokens ==> t != "P" && t != "C_CORTADO"
  {
  }

  lemma FirstMatchStep(p: string -> bool, ts: seq<string>, i: nat)
    requires i < |ts|
    ensures FirstMatch(p, ts[i..]) == if p(ts[i]) then Some(ts[i]) else FirstMatch(p, ts[i + 1..])
  {
    assert ts[i..][1..] == ts[i + 1..];
  }

  lemma FallbackStep(code: string, flat: Assoc, ts: seq<string>, j: nat)
    requires j < |ts|
    ensures FallbackMatch(code, flat, ts[j..]) ==
      if ts[j] in Keys(flat) && (StartsWith(code, ts[j]) || Contains(code, ts[j])) then Some(ts[j])
      else FallbackMatch(code, flat, ts[j + 1..])
  {
    assert ts[j..][1..] == ts[j + 1..];
  }

  /** What _find_idade_color returns, with the colour read from the table. */
  function IdadeColourSpec(idadeCode: string, flat: Assoc): string {
    var code := Upper(idadeCode);
    var m := FirstMatch(Matcher(code), LongestFirst(Keys(flat)));
    if m.Some? then Get(flat, m.value).value
    else
      var f := FallbackMatch(code, flat, FallbackTokens);
      if f.Some? then Get(flat, f.value).value else ""
  }

  /** _find_idade_color: the sorted pass, then the fixed list, then "". */
  method FindIdadeColor(idadeCode: string, flat: Assoc) returns (color: string)
    ensures color == IdadeColourSpec(idadeCode, flat)
  {
    var code := Upper(idadeCode);
    var m := SortedPass(code, LongestFirst(Keys(flat)));
    if m.Some? {
      return Get(flat, m.value).value;
    }
    var f := FallbackPass(code, flat);
    if f.Some? {
      return Get(flat, f.value).value;
    }
    return "";
  }

  /** The first loop of _find_idade_color: the first token that passes the test. */
  method SortedPass(code: string, tokens: seq<string>) returns (m: Option<string>)
    ensures m == FirstMatch(Matcher(code), tokens)
  {
    var i := 0;
    while i < |tokens|
      invariant 0 <= i <= |tokens|
      invariant FirstMatch(Matcher(code), tokens) == FirstMatch(Matcher(code), tokens[i..])
    {
      var t := tokens[i];
      FirstMatchStep(Matcher(code), tokens, i);
      if TokenMatches(code, t) {
        return Some(t);
      }
      i := i + 1;
    }
    return None;
  }

  /** The second loop of _find_idade_color, over the fixed token list. */
  method FallbackPass(code: string, flat: Assoc) returns (f: Option<string>)
    ensures f == FallbackMatch(code, flat, FallbackTokens)
  {
    var j := 0;
    while j < |FallbackTokens|
      invariant 0 <= j <= |FallbackTokens|
      invariant FallbackMatch(code, flat, FallbackTokens) == FallbackMatch(code, flat, FallbackTokens[j..])
    {
      var t := FallbackTokens[j];
      FallbackStep(code, flat, FallbackTokens, j);
      if t in Keys(flat) && (StartsWith(code, t) || Contains(code, t)) {
        return Some(t);
      }
      j := j + 1;
    }
    return None;
  }

  /**
   * The fixed fallback list never decides anything: each of its tokens is
   * also a key, is neither "P" nor "C_CORTADO", and so was already tried
   * with the same test in the sorted pass.
   */
  lemma {:induction false} FallbackIsDead(code: string, flat: Assoc, ts: seq<string>)
    requires forall t :: t in ts ==> t != "P" && t != "C_CORTADO"
    requires FirstMatch(Matcher(code), LongestFirst(Keys(flat))).None?
    ensures FallbackMatch(code, flat, ts).None?
  {
    if ts != [] {
      assert forall t :: t in ts[1..] ==> t in ts;
      FallbackIsDead(code, flat, ts[1..]);
      if ts[0] in Keys(flat) {
        assert ts[0] in LongestFirst(Keys(flat));
        assert ts[0] in ts;
        TokenMatchesPlain(code, ts[0]);
      }
      assert FallbackMatch(code, flat, ts) == FallbackMatch(code, flat, ts[1..]);
    }
  }

  /** The colour comes from a matching key, or is "" when no key matches. */
  lemma IdadeColourFromMatch(idadeCode: string, flat: Assoc)
    ensures var m := FirstMatch(Matcher(Upper(idadeCode)), LongestFirst(Keys(flat)));
      IdadeColourSpec(idadeCode, flat) == if m.Some? then Get(flat, m.value).value else ""
  {
    if FirstMatch(Matcher(Upper(idadeCode)), LongestFirst(Keys(flat))).None? {
      FallbackTokensPlain();
      FallbackIsDead(Upper(idadeCode), flat, FallbackTokens);
    }
  }

  /**
   * The search is longest-first: the chosen key matches, no longer key
   * matches, and every matching key of the same length comes later in the
   * table.
   */
  /** `t` is as long as any key passing `p`, and no later than the others of its length. */
  predicate LongestEarliest(p: string -> bool, ks: seq<string>, t: string) {
    forall i :: 0 <= i < |ks| && p(ks[i]) ==>
      |ks[i]| < |t| || (|ks[i]| == |t| && exists j :: 0 <= j <= i && ks[j] == t)
  }

  lemma LongestMatchWins(p: string -> bool, ks: seq<string>, n: nat)
    requires forall i :: 0 <= i < |ks| && p(ks[i]) ==> |ks[i]| <= n
    ensures FirstMatch(p, LongestFirstUpTo(ks, n)).Some? ==>
      LongestEarliest(p, ks, FirstMatch(p, LongestFirstUpTo(ks, n)).value)
  {
    if FirstMatch(p, LongestFirstUpTo(ks, n)).Some? {
      var k := WinningBucket(p, ks, n);
      BucketWinner(p, ks, k);
    }
  }

  /** The length whose bucket holds the first match: no passing key is longer. */
  lemma {:induction false} WinningBucket(p: string -> bool, ks: seq<string>, n: nat) returns (k: nat)
    requires forall i :: 0 <= i < |ks| && p(ks[i]) ==> |ks[i]| <= n
    requires FirstMatch(p, LongestFirstUpTo(ks, n)).Some?
    ensures k <= n && FirstMatch(p, OfLength(ks, k)).Some?
    ensures FirstMatch(p, LongestFirstUpTo(ks, n)) == FirstMatch(p, OfLength(ks, k))
    ensures forall i :: 0 <= i < |ks| && p(ks[i]) ==> |ks[i]| <= k
  {
    if FirstMatch(p, OfLength(ks, n)).Some? {
      FirstMatchUpTo(p, ks, n);
      k := n;
    } else {
      BucketBelow(p, ks, n);
      k := WinningBucket(p, ks, n - 1);
    }
  }

  /** With no match of length n, the search goes on among the shorter keys. */
  lemma BucketBelow(p: string -> bool, ks: seq<string>, n: nat)
    requires forall i :: 0 <= i < |ks| && p(ks[i]) ==> |ks[i]| <= n
    requires FirstMatch(p, LongestFirstUpTo(ks, n)).Some? && FirstMatch(p, OfLength(ks, n)).None?
    ensures n > 0 && FirstMatch(p, LongestFirstUpTo(ks, n)) == FirstMatch(p, LongestFirstUpTo(ks, n - 1))
    ensures forall i :: 0 <= i < |ks| && p(ks[i]) ==> |ks[i]| <= n - 1
  {
    FirstMatchUpTo(p, ks, n);
    NoMatchOfLength(p, ks, n);
  }

  lemma BucketWinner(p: string -> bool, ks: seq<string>, n: nat)
    requires forall i :: 0 <= i < |ks| && p(ks[i]) ==> |ks[i]| <= n
    requires FirstMatch(p, OfLength(ks, n)).Some?
    ensures LongestEarliest(p, ks, FirstMatch(p, OfLength(ks, n)).value)
  {
    FirstOfLength(p, ks, n);
  }

  lemma NoMatchOfLength(p: string -> bool, ks: seq<string>, n: nat)
    requires forall i :: 0 <= i < |ks| && p(ks[i]) ==> |ks[i]| <= n
    requires FirstMatch(p, OfLength(ks, n)).None?
    ensures forall i :: 0 <= i < |ks| && p(ks[i]) ==> |ks[i]| <= n - 1
  {
    OfLengthMembers(ks, n);
    assert forall i :: 0 <= i < |ks| && |ks[i]| == n ==> ks[i] in OfLength(ks, n);
  }

  /** The first match in the longest-first order: the longest keys are tried first. */
  lemma FirstMatchUpTo(p: string -> bool, ks: seq<string>, n: nat)
    ensures FirstMatch(p, LongestFirstUpTo(ks, n)) ==
      if FirstMatch(p, OfLength(ks, n)).Some? then FirstMatch(p, OfLength(ks, n))
      else if n == 0 then None
      else FirstMatch(p, LongestFirstUpTo(ks, n - 1))
  {
    FirstMatchAppend(p, OfLength(ks, n), if n == 0 then [] else LongestFirstUpTo(ks, n - 1));
  }

  lemma {:induction false} FirstMatchAppend(p: string -> bool, a: seq<string>, b: seq<string>)
    ensures FirstMatch(p, a + b) == if FirstMatch(p, a).Some? then FirstMatch(p, a) else FirstMatch(p, b)
  {
    if a != [] {
      assert (a + b)[1..] == a[1..] + b;
      FirstMatchAppend(p, a[1..], b);
    } else {
      assert a + b == b;
    }
  }

  lemma {:induction false} FirstOfLength(p: string -> bool, ks: seq<string>, n: nat)
    requires forall i :: 0 <= i < |ks| && p(ks[i]) ==> |ks[i]| <= n
    requires FirstMatch(p, OfLength(ks, n)).Some?
    ensures var t := FirstMatch(p, OfLength(ks, n)).value;
      |t| == n && forall i :: 0 <= i < |ks| && p(ks[i]) ==>
        |ks[i]| < n || exists j :: 0 <= j <= i && ks[j] == t
  {
    var b := OfLength(ks, n);
    var t := FirstMatch(p, b).value;
    assert ks != [];
    if |ks[0]| == n && p(ks[0]) {
      assert b[0] == ks[0];
      assert t == ks[0];
    } else {
      assert FirstMatch(p, b) == FirstMatch(p, OfLength(ks[1..], n)) by {
        if |ks[0]| == n {
          assert b == [ks[0]] + OfLength(ks[1..], n);
          assert b[1..] == OfLength(ks[1..], n);
        } else {
          assert b == OfLength(ks[1..], n);
        }
      }
      forall i | 0 <= i < |ks| - 1 && p(ks[1..][i])
        ensures |ks[1..][i]| <= n
      {
        assert ks[1..][i] == ks[i + 1];
      }
      FirstOfLength(p, ks[1..], n);
      forall i | 0 <= i < |ks| && p(ks[i])
        ensures |ks[i]| < n || exists j :: 0 <= j <= i && ks[j] == t
      {
        if i > 0 {
          assert ks[1..][i - 1] == ks[i];
          if |ks[i]| >= n {
            var j :| 0 <= j <= i - 1 && ks[1..][j] == t;
            assert ks[j + 1] == t;
          }
        }
      }
    }
  }

  /** The whole table: the chosen key is a longest match, first among equals. */
  lemma IdadeColourLongestFirst(code: string, flat: Assoc)
    ensures var ks := Keys(flat);
      var m := FirstMatch(Matcher(code), LongestFirst(ks));
      m.Some? ==> LongestEarliest(Matcher(code), ks, m.value)
  {
    LongestMatchWins(Matcher(code), Keys(flat), MaxLen(Keys(flat)));
  }

  // ------------------------------------------------- _lookup_sigla_color

  /** The SIGLA colour: as written, else upper-cased, else lower-cased. */
  function LookupSiglaColor(m: map<string, string>, sigla: string): (r: string)
    ensures |m| == 0 ==> r == ""
    ensures sigla in m ==> r == m[sigla]
    ensures r != "" ==> r in m.Values
    ensures sigla !in m && Upper(sigla) in m ==> r == m[Upper(sigla)]
    ensures sigla !in m && Upper(sigla) !in m && Lower(sigla) in m ==> r == m[Lower(sigla)]
    ensures sigla !in m && Upper(sigla) !in m && Lower(sigla) !in m ==> r == ""
  {
    if |m| == 0 then ""
    else if sigla in m then m[sigla]
    else if Upper(sigla) in m then m[Upper(sigla)]
    else if Lower(sigla) in m then m[Lower(sigla)]
    else ""
  }

  // ------------------------------------------------------- load_sigla_qml

  /** A palette read from one QML file: its attribute and value -> colour pairs. */
  datatype Palette = Palette(attr: string, entries: Assoc)

  /** The case-duplicating normalisation: each key also under its upper and lower case. */
  function NormalizeCase(mp: Assoc): (r: map<string, string>)
  {
    if mp == [] then map[]
    else
      var (k, v) := mp[|mp| - 1];
      NormalizeCase(mp[..|mp| - 1])[k := v][Upper(k) := v][Lower(k) := v]
  }

  function AsMap(mp: Assoc): map<string, string> {
    if mp == [] then map[] else AsMap(mp[..|mp| - 1])[mp[|mp| - 1].0 := mp[|mp| - 1].1]
  }

  /** The table a palette contributes. */
  function PaletteMap(p: Palette, normalizeCase: bool): map<string, string> {
    if normalizeCase then NormalizeCase(p.entries) else AsMap(p.entries)
  }

  /** Every file read so far, non-empty palettes overriding in order. */
  function Loaded(m: map<string, string>, ps: seq<Palette>, normalizeCase: bool): map<string, string> {
    if ps == [] then m
    else
      var before := Loaded(m, ps[..|ps| - 1], normalizeCase);
      var p := ps[|ps| - 1];
      if p.entries == [] then before else before + PaletteMap(p, normalizeCase)
  }

  function Kept(ps: seq<Palette>, normalizeCase: bool): seq<(string, map<string, string>)> {
    if ps == [] then []
    else
      var p := ps[|ps| - 1];
      Kept(ps[..|ps| - 1], normalizeCase)
      + if p.entries == [] then [] else [(p.attr, PaletteMap(p, normalizeCase))]
  }

  class Styler {
    /** The SIGLA -> colour table, filled from QML palettes. */
    var siglaColorMap: map<string, string>
    /** The palettes kept, for the audit: attribute and table. */
    var qmlPalettes: seq<(string, map<string, string>)>

    constructor ()
      ensures siglaColorMap == map[] && qmlPalettes == []
    {
      siglaColorMap := map[];
      qmlPalettes := [];
    }

    /**
     * load_sigla_qml over palettes already read from their files: empty
     * palettes are skipped, the others (case-duplicated if asked) are kept
     * and written over the table.
     */
    method LoadSiglaQml(ps: seq<Palette>, normalizeCase: bool)
      modifies this
      ensures siglaColorMap == Loaded(old(siglaColorMap), ps, normalizeCase)
      ensures qmlPalettes == old(qmlPalettes) + Kept(ps, normalizeCase)
    {
      var i := 0;
      while i < |ps|
        invariant 0 <= i <= |ps|
        invariant siglaColorMap == Loaded(old(siglaColorMap), ps[..i], normalizeCase)
        invariant qmlPalettes == old(qmlPalettes) + Kept(ps[..i], normalizeCase)
      {
        assert ps[..i + 1][..i] == ps[..i];
        var p := ps[i];
        if p.entries != [] {
          var mp := PaletteMap(p, normalizeCase);
          qmlPalettes := qmlPalettes + [(p.attr, mp)];
          siglaColorMap := siglaColorMap + mp;
        }
        i := i + 1;
      }
      assert ps[..i] == ps;
    }
  }

  /** With case normalisation, every key is also there in upper and in lower case. */
  lemma {:induction false} NormalizeCaseCloses(mp: Assoc)
    ensures forall i :: 0 <= i < |mp| ==>
      var k := mp[i].0; var n := NormalizeCase(mp); k in n && Upper(k) in n && Lower(k) in n
  {
    if mp != [] {
      NormalizeCaseCloses(mp[..|mp| - 1]);
    }
  }

  /**
   * Loading never forgets a SIGLA, and a non-empty palette loaded last
   * decides the colour of each of its keys.
   */
  lemma {:induction false} LoadedKeepsAndOverrides(m: map<string, string>, ps: seq<Palette>, normalizeCase: bool)
    ensures m.Keys <= Loaded(m, ps, normalizeCase).Keys
    ensures ps != [] && ps[|ps| - 1].entries != [] ==>
      var pm := PaletteMap(ps[|ps| - 1], normalizeCase);
      forall k :: k in pm ==> Loaded(m, ps, normalizeCase)[k] == pm[k]
  {
    if ps != [] {
      LoadedKeepsAndOverrides(m, ps[..|ps| - 1], normalizeCase);
    }
  }

  /**
   * After loading a non-empty palette last with case normalisation, the
   * lookup finds each of its values under the key in any of its cases.
   */
  lemma LookupAfterLoad(m: map<string, string>, ps: seq<Palette>, i: nat)
    requires ps != [] && i < |ps[|ps| - 1].entries|
    ensures var k := ps[|ps| - 1].entries[i].0;
      var table := Loaded(m, ps, true);
      var pm := NormalizeCase(ps[|ps| - 1].entries);
      && k in pm && Upper(k) in pm && Lower(k) in pm
      && LookupSiglaColor(table, k) == pm[k]
      && LookupSiglaColor(table, Upper(k)) == pm[Upper(k)]
      && LookupSiglaColor(table, Lower(k)) == pm[Lower(k)]
  {
    NormalizeCaseCloses(ps[|ps| - 1].entries);
    LoadedKeepsAndOverrides(m, ps, true);
  }

  // -------------------------------------------------------------- _norm_key

  /** _norm_key: stripped and lower-cased; a missing value is "". */
  function NormKey(x: Option<string>): (r: string)
    ensures forall i :: 0 <= i < |r| ==> !IsUpperAscii(r[i])
  {
    if x.None? then "" else Lower(Strip(x.value))
  }

  /**
   * The key ignores letter case and surrounding blanks, and normalising a
   * key again changes nothing: the ROC lookups find a value however the
   * table and the data spell it.
   */
  lemma NormKeyInsensitive(s: string, x: Option<string>)
    ensures NormKey(Some(Upper(s))) == NormKey(Some(s))
    ensures NormKey(Some(Lower(s))) == NormKey(Some(s))
    ensures NormKey(Some(Strip(s))) == NormKey(Some(s))
    ensures NormKey(Some(NormKey(x))) == NormKey(x)
  {
    StripUpper(s);
    LowerOfUpper(Strip(s));
    StripLower(s);
    LowerOfLower(Strip(s));
    StripIdempotent(s);
    if x.Some? {
      var v := Strip(x.value);
      StripLower(v);
      StripIdempotent(x.value);
      LowerOfLower(v);
    }
  }
}
