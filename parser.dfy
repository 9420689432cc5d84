/**
 * The unit-code ("sigla") parser of GeoSiglaStyler: a code such as
 * "NP3alfa_X_" splits into an age code ("NP3"), an optional Greek token
 * ("alfa"), an optional lower-case stem and the coarse group built from them
 * ("NP3|alfa").
 *
 * Regular expressions of the source are written out as character scans;
 * `[A-Z]`, `[a-z]` and `[0-9]` are ASCII classes in Python too.
 */
module CodeParser {
  import opened Common

  /** A character of `[A-Z0-9_]`. */
  predicate IsCodeChar(c: char) { IsUpperAscii(c) || IsDigit(c) || c == '_' }

  predicate AllCodeChars(s: string) { forall i :: 0 <= i < |s| ==> IsCodeChar(s[i]) }

  /** Length of the match of `^[A-Z0-9_]+` (0 when there is none). */
  function CodeRun(s: string): (k: nat)
    ensures k <= |s| && AllCodeChars(s[..k])
    ensures k < |s| ==> !IsCodeChar(s[k])
  {
    if s != [] && IsCodeChar(s[0]) then
      var k := 1 + CodeRun(s[1..]);
      assert s[..k] == [s[0]] + s[1..][..k - 1];
      k
    else 0
  }

  function EndsWith(s: string, suffix: string): bool {
    |suffix| <= |s| && s[|s| - |suffix|..] == suffix
  }

  /**
   * _extract_idade_code: the leading `[A-Z0-9_]` run; when it ends in "C_"
   * and the rest starts with "cortado_" in any case, "CORTADO_" is appended
   * (the Cambrian marker).
   */
  function ExtractIdadeCode(s: string): (code: string)
    ensures AllCodeChars(code)
    ensures |code| <= |s|
    ensures var k := CodeRun(s); code == s[..k] || code == s[..k] + "CORTADO_"
    ensures var k := CodeRun(s);
      |code| > k <==> EndsWith(s[..k], "C_") && StartsWith(Lower(s[k..]), "cortado_")
  {
    var k := CodeRun(s);
    var base := s[..k];
    if EndsWith(base, "C_") && StartsWith(Lower(s[k..]), "cortado_") then
      base + "CORTADO_"
    else base
  }

  /**
   * The age code spells the start of the sigla up to letter case, so the
   * tokens are read from the right place.
   */
  lemma ExtractIdadeCodeIsPrefix(s: string)
    ensures Upper(s[..|ExtractIdadeCode(s)|]) == ExtractIdadeCode(s)
  {
    var k := CodeRun(s);
    var base := s[..k];
    var rest := s[k..];
    UpperOfCodeChars(base);
    if EndsWith(base, "C_") && StartsWith(Lower(rest), "cortado_") {
      UpperCortadoPrefix(s, k);
    } else {
      assert s[..|base|] == base;
    }
  }

  lemma UpperCortadoPrefix(s: string, k: nat)
    requires k <= |s| && AllCodeChars(s[..k]) && StartsWith(Lower(s[k..]), "cortado_")
    ensures k + 8 <= |s| && Upper(s[..k + 8]) == s[..k] + "CORTADO_"
  {
    var w := s[k..k + 8];
    assert w == s[k..][..8];
    LowerPrefix(s[k..], 8);
    UpperOfCortado(w);
    UpperAfterCode(s, k, 8);
  }

  lemma LowerPrefix(s: string, n: nat)
    requires n <= |s|
    ensures Lower(s[..n]) == Lower(s)[..n]
  {
  }

  /** Upper-casing a code followed by `n` more characters upper-cases only those. */
  lemma UpperAfterCode(s: string, k: nat, n: nat)
    requires k + n <= |s| && AllCodeChars(s[..k])
    ensures Upper(s[..k + n]) == s[..k] + Upper(s[k..k + n])
  {
    assert s[..k + n] == s[..k] + s[k..k + n];
    UpperAppend(s[..k], s[k..k + n]);
    UpperOfCodeChars(s[..k]);
  }

  lemma UpperAppend(a: string, b: string)
    ensures Upper(a + b) == Upper(a) + Upper(b)
  {
    assert forall i :: 0 <= i < |a| + |b| ==> (a + b)[i] == if i < |a| then a[i] else b[i - |a|];
  }

  lemma {:induction false} UpperOfCodeChars(s: string)
    requires AllCodeChars(s)
    ensures Upper(s) == s
  {
    if s != [] {
      UpperOfCodeChars(s[1..]);
      assert s == [s[0]] + s[1..];
    }
  }

  lemma UpperOfCortado(w: string)
    requires Lower(w) == "cortado_"
    ensures Upper(w) == "CORTADO_"
  {
    assert |w| == 8;
    forall i | 0 <= i < 8 ensures UpperChar(w[i]) == "CORTADO_"[i] {
      assert LowerChar(w[i]) == "cortado_"[i];
    }
  }

  // ------------------------------------------------------------ tokens

  /** Length of the leading run of characters other than '_'. */
  function WordRun(s: string): (k: nat)
    ensures k <= |s| && Avoids(s[..k], '_')
    ensures k < |s| ==> s[k] == '_'
  {
    if s != [] && s[0] != '_' then
      var k := 1 + WordRun(s[1..]);
      assert s[..k] == [s[0]] + s[1..][..k - 1];
      k
    else 0
  }

  /** `[t for t in re.split(r"_+", s) if t]`: the maximal runs without '_'. */
  function Tokens(s: string): (ts: seq<string>)
    ensures forall j :: 0 <= j < |ts| ==> ts[j] != [] && Avoids(ts[j], '_')
    decreases |s|
  {
    if s == [] then []
    else if s[0] == '_' then Tokens(s[1..])
    else
      var k := WordRun(s);
      [s[..k]] + Tokens(s[k..])
  }

  /** _tokenize_rest: the tokens after the age code. */
  function TokenizeRest(sigla: string, idade: string): (ts: seq<string>)
    ensures forall j :: 0 <= j < |ts| ==> ts[j] != [] && Avoids(ts[j], '_')
  {
    Tokens(if |idade| <= |sigla| then sigla[|idade|..] else "")
  }

  /** Tokens joined by single underscores. */
  function JoinUnderscore(ts: seq<string>): string
    requires ts != []
  {
    if |ts| == 1 then ts[0] else ts[0] + "_" + JoinUnderscore(ts[1..])
  }

  lemma TokensOfWord(t: string, rest: string)
    requires t != [] && Avoids(t, '_')
    requires rest == [] || rest[0] == '_'
    ensures Tokens(t + rest) == [t] + Tokens(rest)
  {
    var s := t + rest;
    WordRunOfWord(t, rest);
    assert s[..|t|] == t && s[|t|..] == rest;
  }

  lemma {:induction false} WordRunOfWord(t: string, rest: string)
    requires Avoids(t, '_')
    requires rest == [] || rest[0] == '_'
    ensures WordRun(t + rest) == |t|
  {
    if t != [] {
      assert (t + rest)[1..] == t[1..] + rest;
      WordRunOfWord(t[1..], rest);
    }
  }

  /** Splitting undoes joining, for non-empty tokens free of '_'. */
  lemma {:induction false} TokensOfJoin(ts: seq<string>)
    requires ts != []
    requires forall j :: 0 <= j < |ts| ==> ts[j] != [] && Avoids(ts[j], '_')
    ensures Tokens(JoinUnderscore(ts)) == ts
  {
    if |ts| == 1 {
      assert ts[0] + [] == ts[0];
      TokensOfWord(ts[0], []);
    } else {
      var tail := JoinUnderscore(ts[1..]);
      assert JoinUnderscore(ts) == ts[0] + ("_" + tail);
      TokensOfWord(ts[0], "_" + tail);
      assert ("_" + tail)[1..] == tail;
      TokensOfJoin(ts[1..]);
    }
  }

  // ------------------------------------------------------------- greek

  /** `re.sub(r"[^A-Za-z]+", "", t)`. */
  function LettersOnly(t: string): (r: string)
    ensures forall i :: 0 <= i < |r| ==> IsLetter(r[i])
  {
    if t == [] then []
    else if IsLetter(t[0]) then [t[0]] + LettersOnly(t[1..])
    else LettersOnly(t[1..])
  }

  const GreekTable: map<string, string> :=
    map["ALFA" := "alfa", "ALPHA" := "alfa", "BETA" := "beta", "GAMMA" := "gamma",
        "GAMA" := "gamma", "DELTA" := "delta", "LAMBDA" := "lambda", "MU" := "mu"]

  predicate IsGreekName(g: string) {
    g == "alfa" || g == "beta" || g == "gamma" || g == "delta" || g == "lambda" || g == "mu"
  }

  /** _norm_greek: the Greek name a token spells, ignoring case and non-letters. */
  function NormGreek(t: string): (g: Option<string>)
    ensures g.Some? ==> IsGreekName(g.value)
  {
    var u := Upper(LettersOnly(t));
    if u in GreekTable then Some(GreekTable[u]) else None
  }

  lemma {:induction false} LettersOnlyLower(t: string)
    ensures Upper(LettersOnly(Lower(t))) == Upper(LettersOnly(t))
  {
    if t != [] {
      LettersOnlyLower(t[1..]);
      assert Lower(t)[1..] == Lower(t[1..]);
      if IsLetter(t[0]) {
        assert Upper([LowerChar(t[0])] + LettersOnly(Lower(t[1..])))
            == [UpperChar(LowerChar(t[0]))] + Upper(LettersOnly(Lower(t[1..])));
        assert Upper([t[0]] + LettersOnly(t[1..]))
            == [UpperChar(t[0])] + Upper(LettersOnly(t[1..]));
        assert UpperChar(LowerChar(t[0])) == UpperChar(t[0]);
      }
    }
  }

  /** The Greek lookup ignores letter case. */
  lemma NormGreekIgnoresCase(t: string)
    ensures NormGreek(Lower(t)) == NormGreek(t)
  {
    LettersOnlyLower(t);
  }

  // -------------------------------------------------------------- stem

  /** `tok.strip("_")`. */
  function StripUnderscores(t: string): (r: string)
    ensures |r| <= |t|
    ensures r != [] ==> r[0] != '_' && r[|r| - 1] != '_'
    decreases |t|
  {
    if t == [] then []
    else if t[0] == '_' then StripUnderscores(t[1..])
    else if t[|t| - 1] == '_' then StripUnderscores(t[..|t| - 1])
    else t
  }

  /** `re.sub(r"^[0-9]+", "", t)`. */
  function DropLeadingDigits(t: string): (r: string)
    ensures r == [] || !IsDigit(r[0])
    ensures |r| <= |t| && r == t[|t| - |r|..]
    ensures forall i :: 0 <= i < |t| - |r| ==> IsDigit(t[i])
  {
    if t != [] && IsDigit(t[0]) then DropLeadingDigits(t[1..]) else t
  }

  /** Length of the match of `^[a-z]+`. */
  function LowerRun(t: string): (k: nat)
    ensures k <= |t| && forall i :: 0 <= i < k ==> IsLowerAscii(t[i])
    ensures k < |t| ==> !IsLowerAscii(t[k])
  {
    if t != [] && IsLowerAscii(t[0]) then 1 + LowerRun(t[1..]) else 0
  }

  /** Python's `s[:n]`, negative n counting from the end. */
  function PyPrefix(s: string, n: int): (r: string)
    ensures n >= 0 ==> |r| == if n < |s| then n else |s|
    ensures |r| <= |s| && r == s[..|r|]
  {
    if n >= 0 then (if n < |s| then s[..n] else s)
    else if |s| + n > 0 then s[..|s| + n] else []
  }

  /** _letters_stem: the leading lower-case run after leading digits, cut to stem_len. */
  function LettersStem(t: string, stemLen: int): (r: Option<string>)
    ensures r.Some? && stemLen >= 0 ==> |r.value| <= stemLen
    ensures r.Some? ==> forall i :: 0 <= i < |r.value| ==> IsLowerAscii(r.value[i])
    ensures var u := DropLeadingDigits(StripUnderscores(t));
      && (r.None? <==> LowerRun(u) == 0)
      && (r.Some? ==> r.value == PyPrefix(u[..LowerRun(u)], stemLen))
  {
    var u := DropLeadingDigits(StripUnderscores(t));
    var k := LowerRun(u);
    if k == 0 then None else Some(PyPrefix(u[..k], stemLen))
  }

  // ------------------------------------------------------- _parse_sigla

  datatype Parsed = Parsed(idade: string, greek: string, stem: string, coarse: string)

  /** `re.fullmatch(r"[A-Z0-9]+", t)`. */
  predicate IsCapsToken(t: string) {
    t != [] && forall i :: 0 <= i < |t| ==> IsUpperAscii(t[i]) || IsDigit(t[i])
  }

  predicate Ignored(t: string, ignore: set<string>) { IsCapsToken(t) && t in ignore }

  /** Index of the first non-ignored token naming a Greek letter, from `from` on. */
  function FindGreek(toks: seq<string>, ignore: set<string>, from: nat): (r: Option<nat>)
    ensures r.Some? ==>
              from <= r.value < |toks| && !Ignored(toks[r.value], ignore) && NormGreek(toks[r.value]).Some?
    ensures forall j :: from <= j < |toks| && (r.None? || j < r.value) ==>
                          (Ignored(toks[j], ignore) || NormGreek(toks[j]).None?)
    decreases |toks| - from
  {
    if from >= |toks| then None
    else if !Ignored(toks[from], ignore) && NormGreek(toks[from]).Some? then Some(from)
    else FindGreek(toks, ignore, from + 1)
  }

  /** A token at which the loop sets the stem: not ignored, not taken as Greek, stem non-empty. */
  predicate StemAt(toks: seq<string>, ignore: set<string>, stemLen: int, skip: Option<nat>, j: nat)
    requires j < |toks|
  {
    var st := LettersStem(toks[j], stemLen);
    !Ignored(toks[j], ignore) && skip != Some(j) && st.Some? && st.value != ""
  }

  function FindStem(toks: seq<string>, ignore: set<string>, stemLen: int, skip: Option<nat>, from: nat): (r: Option<nat>)
    ensures r.Some? ==> from <= r.value < |toks| && StemAt(toks, ignore, stemLen, skip, r.value)
    ensures forall j :: from <= j < |toks| && (r.None? || j < r.value) ==>
      !StemAt(toks, ignore, stemLen, skip, j)
    decreases |toks| - from
  {
    if from >= |toks| then None
    else if StemAt(toks, ignore, stemLen, skip, from) then Some(from)
    else FindStem(toks, ignore, stemLen, skip, from + 1)
  }

  lemma FindStemHere(toks: seq<string>, ignore: set<string>, stemLen: int, skip: Option<nat>, i: nat)
    requires i < |toks| && StemAt(toks, ignore, stemLen, skip, i)
    requires var r := FindStem(toks, ignore, stemLen, skip, 0); !(r.Some? && r.value < i)
    ensures FindStem(toks, ignore, stemLen, skip, 0) == Some(i)
  {
  }

  /** The coarse group: age code plus Greek token, else plus stem, else the code alone. */
  function Coarse(idade: string, greek: string, stem: string): string {
    if greek != "" then idade + "|" + greek
    else if stem != "" then idade + "|" + stem
    else idade
  }

  /**
   * What _parse_sigla computes, stated without the loop: the Greek token is
   * the first Greek name among the non-ignored tokens; the stem comes from
   * the first other non-ignored token that yields one.
   */
  function SiglaSpec(s: string, ignore: set<string>, stemLen: int): Parsed {
    var idade := ExtractIdadeCode(s);
    var toks := TokenizeRest(s, idade);
    var gi := FindGreek(toks, ignore, 0);
    var greek := if gi.Some? then NormGreek(toks[gi.value]).value else "";
    var si := FindStem(toks, ignore, stemLen, gi, 0);
    var stem := if si.Some? then LettersStem(toks[si.value], stemLen).value else "";
    Parsed(idade, greek, stem, Coarse(idade, greek, stem))
  }

  /** _parse_sigla, with its token loop. */
  method ParseSigla(s: string, ignore: set<string>, stemLen: int) returns (p: Parsed)
    ensures p == SiglaSpec(s, ignore, stemLen)
  {
    var idade := ExtractIdadeCode(s);
    var toks := TokenizeRest(s, idade);
    var greek: Option<string> := None;
    var stem: Option<string> := None;
    ghost var scanned := 0;
    var i := 0;
    while i < |toks|
      invariant 0 <= i <= |toks| && scanned == i
      invariant ScanState(toks, ignore, stemLen, i, greek, stem)
    {
      var t := toks[i];
      if IsCapsToken(t) && t in ignore {
        ScanIgnored(toks, ignore, stemLen, i, greek, stem);
      } else if greek.None? && NormGreek(t).Some? {
        ScanGreek(toks, ignore, stemLen, i, greek, stem);
        greek := NormGreek(t);
      } else {
        ScanOther(toks, ignore, stemLen, i, greek, stem);
        if stem.None? {
          var st := LettersStem(t, stemLen);
          if st.Some? && st.value != "" {
            stem := st;
          }
        }
        if greek.Some? && stem.Some? {
          scanned := i + 1;
          break;
        }
      }
      i := i + 1;
      scanned := i;
    }
    ScanDone(toks, ignore, stemLen, scanned, greek, stem);
    var gs := if greek.Some? then greek.value else "";
    var ss := if stem.Some? then stem.value else "";
    p := Parsed(idade, gs, ss, Coarse(idade, gs, ss));
  }

  /**
   * The loop's state after the first `i` tokens: the Greek token and the
   * stem are set exactly when their first occurrence lies among them.
   */
  predicate ScanState(toks: seq<string>, ignore: set<string>, stemLen: int, i: nat,
                      greek: Option<string>, stem: Option<string>)
    requires i <= |toks|
  {
    var gi := FindGreek(toks, ignore, 0);
    var si := FindStem(toks, ignore, stemLen, gi, 0);
    (if gi.Some? && gi.value < i then greek == NormGreek(toks[gi.value]) else greek.None?) &&
    (if si.Some? && si.value < i then stem == LettersStem(toks[si.value], stemLen) else stem.None?)
  }

  lemma ScanIgnored(toks: seq<string>, ignore: set<string>, stemLen: int, i: nat,
                    greek: Option<string>, stem: Option<string>)
    requires i < |toks| && ScanState(toks, ignore, stemLen, i, greek, stem) && Ignored(toks[i], ignore)
    ensures ScanState(toks, ignore, stemLen, i + 1, greek, stem)
  {
    var gi := FindGreek(toks, ignore, 0);
    assert gi != Some(i);
    assert !StemAt(toks, ignore, stemLen, gi, i);
  }

  lemma ScanGreek(toks: seq<string>, ignore: set<string>, stemLen: int, i: nat,
                  greek: Option<string>, stem: Option<string>)
    requires i < |toks| && ScanState(toks, ignore, stemLen, i, greek, stem)
    requires !Ignored(toks[i], ignore) && greek.None? && NormGreek(toks[i]).Some?
    ensures ScanState(toks, ignore, stemLen, i + 1, NormGreek(toks[i]), stem)
  {
    var gi := FindGreek(toks, ignore, 0);
    assert gi == Some(i);
    assert !StemAt(toks, ignore, stemLen, gi, i);
  }

  lemma ScanOther(toks: seq<string>, ignore: set<string>, stemLen: int, i: nat,
                  greek: Option<string>, stem: Option<string>)
    requires i < |toks| && ScanState(toks, ignore, stemLen, i, greek, stem)
    requires !Ignored(toks[i], ignore) && !(greek.None? && NormGreek(toks[i]).Some?)
    ensures var st := LettersStem(toks[i], stemLen);
      ScanState(toks, ignore, stemLen, i + 1, greek, if stem.None? && st.Some? && st.value != "" then st else stem)
  {
    var gi := FindGreek(toks, ignore, 0);
    assert gi != Some(i);
    var st := LettersStem(toks[i], stemLen);
    if stem.None? && st.Some? && st.value != "" {
      FindStemHere(toks, ignore, stemLen, gi, i);
    } else if stem.None? {
      assert !StemAt(toks, ignore, stemLen, gi, i);
    }
  }

  lemma ScanDone(toks: seq<string>, ignore: set<string>, stemLen: int, i: nat,
                 greek: Option<string>, stem: Option<string>)
    requires i <= |toks| && ScanState(toks, ignore, stemLen, i, greek, stem)
    requires i == |toks| || (greek.Some? && stem.Some?)
    ensures var gi := FindGreek(toks, ignore, 0);
      var si := FindStem(toks, ignore, stemLen, gi, 0);
      && greek == (if gi.Some? then NormGreek(toks[gi.value]) else None)
      && stem == (if si.Some? then LettersStem(toks[si.value], stemLen) else None)
  {
  }

  // --------------------------------------------------- derived properties

  /** The stem is never longer than stem_len (for a non-negative stem_len). */
  lemma StemBounded(s: string, ignore: set<string>, stemLen: int)
    requires stemLen >= 0
    ensures |SiglaSpec(s, ignore, stemLen).stem| <= stemLen
  {
  }

  /**
   * The three shapes of the coarse group: "code|greek" whenever a Greek
   * token is found (even with an empty code), else "code|stem" when a stem
   * is found, else the code alone.
   */
  lemma CoarseShapes(s: string, ignore: set<string>, stemLen: int)
    ensures var p := SiglaSpec(s, ignore, stemLen);
      var gi := FindGreek(TokenizeRest(s, p.idade), ignore, 0);
      (gi.Some? ==> p.coarse == p.idade + "|" + p.greek && IsGreekName(p.greek)) &&
      (gi.None? && p.stem != "" ==> p.coarse == p.idade + "|" + p.stem) &&
      (gi.None? && p.stem == "" ==> p.coarse == p.idade)
  {
  }

  /** _get_idade_code_from_grp: the text before the first '|', its `[A-Z0-9_]` prefix, upper-cased. */
  function IdadeCodeFromGrp(grp: string): (code: string)
    ensures forall i :: 0 <= i < |code| ==> !IsLowerAscii(code[i])
  {
    var s := BeforeBar(grp);
    var k := CodeRun(s);
    Upper(if k > 0 then s[..k] else s)
  }

  /** `s.split("|", 1)[0]`. */
  function BeforeBar(s: string): (r: string)
    ensures Avoids(r, '|')
    ensures |r| <= |s| && r == s[..|r|]
    ensures |r| < |s| ==> s[|r|] == '|'
  {
    if s == [] || s[0] == '|' then []
    else
      var r := [s[0]] + BeforeBar(s[1..]);
      assert s[..|r|] == [s[0]] + s[1..][..|r| - 1];
      r
  }

  lemma {:induction false} BeforeBarOfCode(code: string, tail: string)
    requires AllCodeChars(code)
    requires tail == [] || tail[0] == '|'
    ensures BeforeBar(code + tail) == code
  {
    if code != [] {
      assert (code + tail)[1..] == code[1..] + tail;
      BeforeBarOfCode(code[1..], tail);
    }
  }

  lemma {:induction false} CodeRunOf(code: string, rest: string)
    requires AllCodeChars(code) && (rest == [] || !IsCodeChar(rest[0]))
    ensures CodeRun(code + rest) == |code|
  {
    if code != [] {
      assert (code + rest)[1..] == code[1..] + rest;
      CodeRunOf(code[1..], rest);
    } else {
      assert code + rest == rest;
    }
  }

  /** The Cambrian marker: a code ending in "C_" followed by "cortado_" in any case. */
  lemma CambrianMarker(code: string, rest: string)
    requires AllCodeChars(code) && EndsWith(code, "C_")
    requires rest != [] && !IsCodeChar(rest[0]) && StartsWith(Lower(rest), "cortado_")
    ensures ExtractIdadeCode(code + rest) == code + "CORTADO_"
  {
    CodeRunOf(code, rest);
    var s := code + rest;
    assert s[..|code|] == code && s[|code|..] == rest;
  }

  lemma LowerOfLowercase(s: string)
    requires forall i :: 0 <= i < |s| ==> !IsUpperAscii(s[i])
    ensures Lower(s) == s
  {
  }

  /** The code of a coarse group is the code it was built from. */
  lemma IdadeOfCoarse(idade: string, greek: string, stem: string)
    requires AllCodeChars(idade)
    ensures IdadeCodeFromGrp(Coarse(idade, greek, stem)) == idade
  {
    if greek == "" && stem == "" {
      assert idade + [] == idade;
      BeforeBarOfCode(idade, []);
    } else {
      var x := if greek != "" then greek else stem;
      assert Coarse(idade, greek, stem) == idade + ("|" + x);
      BeforeBarOfCode(idade, "|" + x);
    }
    CodeRunOfCode(idade);
    UpperOfCodeChars(idade);
    assert idade[..|idade|] == idade;
  }

  lemma {:induction false} CodeRunOfCode(code: string)
    requires AllCodeChars(code)
    ensures CodeRun(code) == |code|
  {
    if code != [] { CodeRunOfCode(code[1..]); }
  }

  /** Reading the age code back out of a coarse group gives the parsed age code. */
  lemma IdadeCodeRoundTrip(s: string, ignore: set<string>, stemLen: int)
    ensures var p := SiglaSpec(s, ignore, stemLen); IdadeCodeFromGrp(p.coarse) == p.idade
  {
    var p := SiglaSpec(s, ignore, stemLen);
    assert p.coarse == Coarse(p.idade, p.greek, p.stem);
    IdadeOfCoarse(p.idade, p.greek, p.stem);
  }

  // ----------------------------------------------------------- examples

  const DefaultIgnore: set<string> := {"C", "D", "E", "A", "B"}

  lemma CambrianCode(s: string)
    requires s == "C_cortado_1"
    ensures ExtractIdadeCode(s) == "C_CORTADO_"
  {
    var code, rest := "C_", "cortado_1";
    CambrianSplit(code, rest, s);
    CambrianMarker(code, rest);
  }

  /** "C_cortado_1" is the code "C_" followed by the marker in lower case. */
  lemma CambrianSplit(code: string, rest: string, s: string)
    requires code == "C_" && rest == "cortado_1" && s == "C_cortado_1"
    ensures AllCodeChars(code) && EndsWith(code, "C_") && code + rest == s && code + "CORTADO_" == "C_CORTADO_"
    ensures rest != [] && !IsCodeChar(rest[0]) && StartsWith(Lower(rest), "cortado_")
  {
    LowerOfLowercase(rest);
    assert rest[..8] == "cortado_";
  }

  lemma CambrianTokens()
    ensures TokenizeRest("C_cortado_1", "C_CORTADO_") == ["1"]
  {
    assert "C_cortado_1"[10..] == "1";
    assert WordRun("1"[1..]) == 0;
    assert WordRun("1") == 1;
    assert "1"[..1] == "1" && "1"[1..] == [];
  }

  lemma OneHasNoStem()
    ensures NormGreek("1").None? && LettersStem("1", 2).None?
  {
    assert LettersOnly("1"[1..]) == [];
    assert LettersOnly("1") == [];
    assert Upper([]) == [];
    DigitHasNoStem("1", 2);
  }

  lemma DigitHasNoStem(t: string, n: int)
    requires |t| == 1 && IsDigit(t[0])
    ensures LettersStem(t, n).None?
  {
    assert StripUnderscores(t) == t;
    var u := DropLeadingDigits(t);
    assert u == [];
  }

  lemma ExampleCambrian()
    ensures SiglaSpec("C_cortado_1", DefaultIgnore, 2) == Parsed("C_CORTADO_", "", "", "C_CORTADO_")
  {
    CambrianCode("C_cortado_1");
    CambrianTokens();
    OneHasNoStem();
    var toks := ["1"];
    assert FindGreek(toks, DefaultIgnore, 0) == None;
    assert FindStem(toks, DefaultIgnore, 2, None, 0) == None;
  }

  lemma GreekCode()
    ensures ExtractIdadeCode("NP3alfa_X_") == "NP3"
  {
    var s := "NP3alfa_X_";
    assert s[1..][1..][1..] == "alfa_X_";
    assert CodeRun("alfa_X_") == 0;
    assert CodeRun(s[1..][1..]) == 1;
    assert CodeRun(s[1..]) == 2;
    assert CodeRun(s) == 3;
    assert s[..3] == "NP3";
    assert !EndsWith("NP3", "C_");
  }

  lemma GreekTokens()
    ensures TokenizeRest("NP3alfa_X_", "NP3") == ["alfa", "X"]
  {
    var r := "alfa_X_";
    assert "NP3alfa_X_"[3..] == r;
    assert r[1..][1..][1..][1..] == "_X_";
    assert WordRun("_X_") == 0;
    assert WordRun(r[1..][1..][1..]) == 1;
    assert WordRun(r[1..][1..]) == 2;
    assert WordRun(r[1..]) == 3;
    assert WordRun(r) == 4;
    assert r[..4] == "alfa" && r[4..] == "_X_";
    assert "_X_"[1..] == "X_";
    assert "X_"[1..] == "_";
    assert WordRun("_") == 0;
    assert WordRun("X_") == 1;
    assert "X_"[..1] == "X" && "X_"[1..] == "_";
    assert "_"[1..] == [];
    assert Tokens("_") == [];
    assert Tokens("X_") == ["X"];
    assert Tokens("_X_") == ["X"];
  }

  lemma AlfaIsGreek()
    ensures NormGreek("alfa") == Some("alfa")
  {
    var t := "alfa";
    assert t[1..][1..][1..][1..] == [];
    assert LettersOnly(t) == "alfa";
    assert Upper("alfa") == "ALFA";
  }

  /** When a Greek token is found, the coarse group is the code, a bar and the Greek name. */
  lemma CoarseWithGreek(s: string, ignore: set<string>, stemLen: int, i: nat, g: string)
    requires var toks := TokenizeRest(s, ExtractIdadeCode(s));
             FindGreek(toks, ignore, 0) == Some(i) && i < |toks| && NormGreek(toks[i]) == Some(g) && g != ""
    ensures SiglaSpec(s, ignore, stemLen).coarse == ExtractIdadeCode(s) + "|" + g
  {
  }

  lemma GreekCoarseOfExample(s: string)
    requires s == "NP3alfa_X_"
    ensures SiglaSpec(s, DefaultIgnore, 2).coarse == ExtractIdadeCode(s) + "|" + "alfa"
  {
    GreekCode();
    GreekTokens();
    AlfaIsGreek();
    var toks := TokenizeRest(s, ExtractIdadeCode(s));
    assert toks == ["alfa", "X"];
    assert !IsCapsToken("alfa") by { assert !IsUpperAscii('a') && !IsDigit('a'); }
    assert FindGreek(toks, DefaultIgnore, 0) == Some(0);
    CoarseWithGreek(s, DefaultIgnore, 2, 0, "alfa");
  }

  lemma JoinBarEmpty(a: string, b: string, ab: string)
    requires a == "" && b == "alfa" && ab == "|alfa"
    ensures a + "|" + b == ab
  {
  }

  lemma JoinBar(a: string, b: string, ab: string)
    requires a == "NP3" && b == "alfa" && ab == "NP3|alfa"
    ensures a + "|" + b == ab
  {
  }

  /** "NP3alfa_X_" groups under "NP3|alfa": the Greek token decides the group. */
  lemma ExampleGreek(s: string)
    requires s == "NP3alfa_X_"
    ensures SiglaSpec(s, DefaultIgnore, 2).coarse == "NP3|alfa"
  {
    GreekCoarseOfExample(s);
    GreekCode();
    JoinBar(ExtractIdadeCode(s), "alfa", "NP3|alfa");
  }

  lemma ExampleGreekWithoutCode(s: string)
    requires s == "alfa"
    ensures SiglaSpec(s, DefaultIgnore, 2).coarse == "|alfa"
  {
    AlfaAlone(s);
    AlfaIsGreek();
    var toks := TokenizeRest(s, ExtractIdadeCode(s));
    assert !IsCapsToken("alfa") by { assert !IsUpperAscii('a') && !IsDigit('a'); }
    assert FindGreek(toks, DefaultIgnore, 0) == Some(0);
    CoarseWithGreek(s, DefaultIgnore, 2, 0, "alfa");
    JoinBarEmpty("", "alfa", "|alfa");
  }

  /** "alfa" has no age code and is a single token. */
  lemma AlfaAlone(s: string)
    requires s == "alfa"
    ensures ExtractIdadeCode(s) == "" && TokenizeRest(s, "") == ["alfa"]
  {
    assert !IsCodeChar(s[0]);
    assert CodeRun(s) == 0;
    assert s[0..] == s && s + [] == s;
    TokensOfWord(s, []);
  }
}
