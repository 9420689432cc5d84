/**
 * The age-consistency ("domino") rules of GeoSiglaStyler.classify: the
 * eon and era fields of a feature are normalised into (min, max) pairs,
 * turned into an eon label and an era stage, and combined with markers
 * found in the age code into a macro era.  The macro era derived from the
 * age code alone must agree with it, otherwise the feature is flagged (or,
 * in mask mode, loses its group).
 *
 * The labels the source writes as strings ("Pre-cambriano", "Paleozóico",
 * "Pre-cambriano|Paleozóico", ...) are datatypes here; an empty label is
 * `None`.
 */
module AgeDomino {
  import opened Common

  // ------------------------------------------------------------- labels

  /** The four macro eras; the empty macro era is `None` of an `Option<Macro>`. */
  datatype Macro = PreCambrian | Paleozoic | Mesozoic | Cenozoic

  /** The eon label written to `eon_domino`. */
  datatype EonLabel = Phanerozoic | Precambrian | PrecambrianPaleozoic

  /** The era stage: empty, one era, or one of the two boundary spans. */
  datatype EraStage = NoStage | Single(era: Macro) | PaleoMeso | MesoCeno

  /** The text the source writes for a macro era. */
  function MacroName(m: Option<Macro>): (r: string)
    ensures r == "" <==> m.None?
  {
    match m
    case None => ""
    case Some(PreCambrian) => "Pre-cambriano"
    case Some(Paleozoic) => "Paleozóico"
    case Some(Mesozoic) => "Mesozóico"
    case Some(Cenozoic) => "Cenozóico"
  }

  const Arqueano := "ARQUEANO"
  const Proterozoico := "PROTEROZOICO"
  const Fanerozoico := "FANEROZOICO"
  const Paleozoico := "PALEOZOICO"
  const Mesozoico := "MESOZOICO"
  const Cenozoico := "CENOZOICO"

  const EonDomain: set<string> := {Arqueano, Proterozoico, Fanerozoico}
  const EraDomain: set<string> := {Paleozoico, Mesozoico, Cenozoico}

  // ------------------------------------------------------ _choose_minmax

  /**
   * The `norm` of _choose_minmax: a missing or blank value, or one outside
   * the domain once stripped and upper-cased, is unknown.
   */
  function NormField(x: Option<string>, domain: set<string>): (r: Option<string>)
    ensures r.Some? ==> r.value in domain && x.Some? && r.value == Upper(Strip(x.value))
    ensures x.Some? && Upper(Strip(x.value)) in domain && Strip(x.value) != "" ==> r.Some?
  {
    if x.None? then None
    else
      var s := Strip(x.value);
      if s == "" then None
      else
        var u := Upper(s);
        if u in domain then Some(u) else None
  }

  /** _choose_minmax: a single known end is copied onto the other. */
  function ChooseMinMax(vmin: Option<string>, vmax: Option<string>, domain: set<string>)
    : (r: (Option<string>, Option<string>))
    ensures r.0.None? <==> r.1.None?
    ensures r.0.Some? ==> r.0.value in domain && r.1.value in domain
    ensures NormField(vmin, domain).Some? ==> r.0 == NormField(vmin, domain)
    ensures NormField(vmax, domain).Some? ==> r.1 == NormField(vmax, domain)
    ensures NormField(vmin, domain).None? ==> r.0 == r.1
    ensures NormField(vmax, domain).None? ==> r.0 == r.1
  {
    var m := NormField(vmin, domain);
    var mx := NormField(vmax, domain);
    if m.None? && mx.None? then (None, None)
    else
      var m' := if m.None? then mx else m;
      var mx' := if mx.None? then m' else mx;
      (m', mx')
  }

  // ------------------------------------------------------------ eon label

  predicate IsPrecambrianEon(a: Option<string>) {
    a == Some(Arqueano) || a == Some(Proterozoico)
  }

  /** The eon label of a (min, max) pair, branch for branch as in classify. */
  function EonOf(a: Option<string>, b: Option<string>): EonLabel {
    if a.None? && b.None? then Phanerozoic
    else if IsPrecambrianEon(a) && IsPrecambrianEon(b) then Precambrian
    else if IsPrecambrianEon(a) && b == Some(Fanerozoico) then PrecambrianPaleozoic
    else if a == Some(Fanerozoico) && b == Some(Fanerozoico) then Phanerozoic
    else if a == Some(Fanerozoico) || b == Some(Fanerozoico) then Phanerozoic
    else Precambrian
  }

  /** A pair _choose_minmax can produce: both unknown, or both in the domain. */
  predicate ChosenPair(a: Option<string>, b: Option<string>, domain: set<string>) {
    (a.None? <==> b.None?) && (a.Some? ==> a.value in domain && b.value in domain)
  }

  /**
   * On pairs _choose_minmax can produce, the eon label is Precambrian
   * exactly when both ends are Precambrian eons, spans the boundary exactly
   * when a Precambrian minimum meets a Phanerozoic maximum, and is
   * Phanerozoic otherwise (all-unknown included): the final "Pre-cambriano"
   * fallback of the if-chain is never reached.
   */
  lemma EonOfChosen(a: Option<string>, b: Option<string>)
    requires ChosenPair(a, b, EonDomain)
    ensures EonOf(a, b) == Precambrian <==> IsPrecambrianEon(a) && IsPrecambrianEon(b)
    ensures EonOf(a, b) == PrecambrianPaleozoic <==> IsPrecambrianEon(a) && b == Some(Fanerozoico)
    ensures EonOf(a, b) == Phanerozoic <==> a.None? || a == Some(Fanerozoico)
  {
  }

  // ------------------------------------------------------------ era stage

  /** Position of an era in time; -1 for anything else. */
  function EraRank(x: Option<string>): (k: int)
    ensures -1 <= k <= 2
    ensures k >= 0 <==> x.Some? && x.value in EraDomain
  {
    if x == Some(Paleozoico) then 0
    else if x == Some(Mesozoico) then 1
    else if x == Some(Cenozoico) then 2
    else -1
  }

  function EraOfName(x: Option<string>): Option<Macro> {
    if x == Some(Paleozoico) then Some(Paleozoic)
    else if x == Some(Mesozoico) then Some(Mesozoic)
    else if x == Some(Cenozoico) then Some(Cenozoic)
    else None
  }

  /** era_label in classify, including its `m == M` dictionary fallback. */
  function EraStageOf(m: Option<string>, mx: Option<string>): EraStage {
    if m.None? && mx.None? then NoStage
    else if m == Some(Paleozoico) && mx == Some(Paleozoico) then Single(Paleozoic)
    else if m == Some(Paleozoico) && mx == Some(Mesozoico) then PaleoMeso
    else if m == Some(Mesozoico) && mx == Some(Mesozoico) then Single(Mesozoic)
    else if m == Some(Mesozoico) && mx == Some(Cenozoico) then MesoCeno
    else if m == Some(Cenozoico) && mx == Some(Cenozoico) then Single(Cenozoic)
    else if m == mx then (if EraOfName(m).Some? then Single(EraOfName(m).value) else NoStage)
    else NoStage
  }

  /**
   * An era stage is set exactly when both ends are eras, the minimum is not
   * later than the maximum, and they are at most one era apart: a reversed
   * pair, or Paleozoic to Cenozoic, gives the empty stage.
   */
  lemma EraStageIff(m: Option<string>, mx: Option<string>)
    ensures EraStageOf(m, mx) != NoStage <==>
              EraRank(m) >= 0 && EraRank(mx) >= 0 && EraRank(m) <= EraRank(mx) <= EraRank(m) + 1
    ensures EraStageOf(m, mx).Single? <==> EraRank(m) >= 0 && m == mx
  {
  }

  // ---------------------------------------------------- age-code markers

  /** `"NP" in ic`. */
  predicate HasNP(ic: string) { Contains(ic, "NP") }

  /** `"K" in ic or "JK" in ic`. */
  predicate HasK(ic: string) { Contains(ic, "K") || Contains(ic, "JK") }

  /** A 'P' at `i` not preceded by an upper-case letter: `(^|[^A-Z])P`. */
  predicate LonePAt(ic: string, i: int) {
    0 <= i < |ic| && ic[i] == 'P' && (i == 0 || !IsUpperAscii(ic[i - 1]))
  }

  /** `re.search(r"(^|[^A-Z])P(?![A-Z])", ic)`. */
  predicate PermNotBeforeCapital(ic: string) {
    exists i :: 0 <= i < |ic| && LonePAt(ic, i) && (i + 1 == |ic| || !IsUpperAscii(ic[i + 1]))
  }

  /** `re.search(r"(^|[^A-Z])P[0-9]", ic)`. */
  predicate PermBeforeDigit(ic: string) {
    exists i :: 0 <= i < |ic| && LonePAt(ic, i) && i + 1 < |ic| && IsDigit(ic[i + 1])
  }

  /** has_perm: either search matches. */
  predicate HasPerm(ic: string) { PermNotBeforeCapital(ic) || PermBeforeDigit(ic) }

  /** The second search of has_perm adds nothing: a digit is not a capital. */
  lemma HasPermFirstSearchSuffices(ic: string)
    ensures HasPerm(ic) <==> PermNotBeforeCapital(ic)
  {
    if PermBeforeDigit(ic) {
      var i :| 0 <= i < |ic| && LonePAt(ic, i) && i + 1 < |ic| && IsDigit(ic[i + 1]);
      assert !IsUpperAscii(ic[i + 1]);
    }
  }

  /** The `"JK" in ic` test of has_k adds nothing to `"K" in ic`. */
  lemma HasKFirstTestSuffices(ic: string)
    ensures HasK(ic) <==> Contains(ic, "K")
  {
    if Contains(ic, "JK") {
      var i :| 0 <= i <= |ic| - 2 && OccursAt(ic, "JK", i);
      assert ic[i + 1] == "JK"[1];
      assert OccursAt(ic, "K", i + 1);
    }
  }

  // ----------------------------------------------------------- macro era

  /** The macro-era decision of classify. */
  function MacroOf(ed: EonLabel, er: EraStage, ic: string): Option<Macro> {
    match ed
    case Precambrian => Some(PreCambrian)
    case PrecambrianPaleozoic => if HasNP(ic) then Some(PreCambrian) else Some(Paleozoic)
    case Phanerozoic =>
      match er
      case NoStage => None
      case Single(e) => Some(e)
      case PaleoMeso => if HasPerm(ic) then Some(Paleozoic) else Some(Mesozoic)
      case MesoCeno => if HasK(ic) then Some(Mesozoic) else Some(Cenozoic)
  }

  /**
   * The macro era is empty only for a Phanerozoic eon with no era stage,
   * always lies within the span the eon label and era stage allow, and is
   * Precambrian under a Phanerozoic eon never.
   */
  lemma MacroOfWithinSpan(ed: EonLabel, er: EraStage, ic: string)
    ensures MacroOf(ed, er, ic).None? <==> ed == Phanerozoic && er == NoStage
    ensures ed == Precambrian ==> MacroOf(ed, er, ic) == Some(PreCambrian)
    ensures ed == PrecambrianPaleozoic ==>
              MacroOf(ed, er, ic) in {Some(PreCambrian), Some(Paleozoic)}
    ensures ed == Phanerozoic && er == PaleoMeso ==>
              MacroOf(ed, er, ic) in {Some(Paleozoic), Some(Mesozoic)}
    ensures ed == Phanerozoic && er == MesoCeno ==>
              MacroOf(ed, er, ic) in {Some(Mesozoic), Some(Cenozoic)}
    ensures ed == Phanerozoic && er.Single? ==> MacroOf(ed, er, ic) == Some(er.era)
  {
  }

  // ---------------------------------------- _macro_from_idade_code_simple

  /** `re.match(r"^(A|PP|MP|NP)", u)`. */
  predicate PrecambrianPrefix(u: string) {
    StartsWith(u, "A") || StartsWith(u, "PP") || StartsWith(u, "MP") || StartsWith(u, "NP")
  }

  /** `re.match(r"^(J|K|T|JK)", u)`. */
  predicate MesozoicPrefix(u: string) {
    StartsWith(u, "J") || StartsWith(u, "K") || StartsWith(u, "T") || StartsWith(u, "JK")
  }

  /** `re.match(r"^(Q|N|PG|PL|PE|E)", u)`. */
  predicate CenozoicPrefix(u: string) {
    StartsWith(u, "Q") || StartsWith(u, "N") || StartsWith(u, "PG")
    || StartsWith(u, "PL") || StartsWith(u, "PE") || StartsWith(u, "E")
  }

  /** `re.match(r"^(P(?!P)|D|C(?!C)|S|O|CM)", u)`. */
  predicate PaleozoicPrefix(u: string) {
    (StartsWith(u, "P") && !StartsWith(u, "PP")) || StartsWith(u, "D")
    || (StartsWith(u, "C") && !StartsWith(u, "CC")) || StartsWith(u, "S")
    || StartsWith(u, "O") || StartsWith(u, "CM")
  }

  /** The macro era read off the age code alone, rules tried in order. */
  function SimpleMacro(idadeCode: string): Option<Macro> {
    MacroOfUpper(Upper(idadeCode))
  }

  /** The rules of _macro_from_idade_code_simple on the upper-cased code. */
  function MacroOfUpper(u: string): Option<Macro> {
    if Contains(u, "C_CORTADO") then Some(Paleozoic)
    else if PrecambrianPrefix(u) then Some(PreCambrian)
    else if MesozoicPrefix(u) then Some(Mesozoic)
    else if CenozoicPrefix(u) then Some(Cenozoic)
    else if PaleozoicPrefix(u) then Some(Paleozoic)
    else None
  }

  /**
   * The Cambrian marker wins wherever it sits, and a code that starts with
   * none of the listed prefixes (the empty code among them) has no era.
   */
  lemma SimpleMacroCambrianFirst(idadeCode: string)
    ensures Contains(Upper(idadeCode), "C_CORTADO") ==> SimpleMacro(idadeCode) == Some(Paleozoic)
    ensures |idadeCode| < 9 || !Contains(Upper(idadeCode), "C_CORTADO") ==>
              (SimpleMacro(idadeCode).None? <==>
                 var u := Upper(idadeCode);
                 !PrecambrianPrefix(u) && !MesozoicPrefix(u) && !CenozoicPrefix(u) && !PaleozoicPrefix(u))
    ensures SimpleMacro("").None?
  {
    if |idadeCode| < 9 {
      ShortAvoidsCambrian(Upper(idadeCode));
    }
  }

  lemma ShortAvoidsCambrian(s: string)
    requires |s| < 9
    ensures !Contains(s, "C_CORTADO")
  {
  }

  /**
   * Away from the Cambrian marker, only the first two characters of the
   * code decide its macro era.
   */
  lemma ShortPrefix(u: string, p: string)
    requires |p| <= 2 <= |u|
    ensures StartsWith(u, p) <==> StartsWith(u[..2], p)
  {
    assert u[..2][..|p|] == u[..|p|];
  }

  lemma PrefixRulesReadTwo(u: string)
    requires |u| >= 2
    ensures PrecambrianPrefix(u) == PrecambrianPrefix(u[..2])
    ensures MesozoicPrefix(u) == MesozoicPrefix(u[..2])
    ensures CenozoicPrefix(u) == CenozoicPrefix(u[..2])
    ensures PaleozoicPrefix(u) == PaleozoicPrefix(u[..2])
  {
    ShortPrefix(u, "A"); ShortPrefix(u, "PP"); ShortPrefix(u, "MP"); ShortPrefix(u, "NP");
    ShortPrefix(u, "J"); ShortPrefix(u, "K"); ShortPrefix(u, "T"); ShortPrefix(u, "JK");
    ShortPrefix(u, "Q"); ShortPrefix(u, "N"); ShortPrefix(u, "PG"); ShortPrefix(u, "PL");
    ShortPrefix(u, "PE"); ShortPrefix(u, "E"); ShortPrefix(u, "P"); ShortPrefix(u, "D");
    ShortPrefix(u, "C"); ShortPrefix(u, "CC"); ShortPrefix(u, "S"); ShortPrefix(u, "O");
    ShortPrefix(u, "CM");
  }

  /**
   * Away from the Cambrian marker, only the first two characters of the
   * code decide its macro era.
   */
  lemma SimpleMacroReadsTwoCharacters(idadeCode: string)
    requires |idadeCode| >= 2 && !Contains(Upper(idadeCode), "C_CORTADO")
    ensures SimpleMacro(idadeCode) == MacroOfUpper(Upper(idadeCode)[..2])
  {
    MacroOfUpperReadsTwo(Upper(idadeCode));
  }

  lemma MacroOfUpperReadsTwo(u: string)
    requires |u| >= 2 && !Contains(u, "C_CORTADO")
    ensures MacroOfUpper(u) == MacroOfUpper(u[..2])
  {
    var v := u[..2];
    ShortAvoidsCambrian(v);
    PrefixRulesReadTwo(u);
  }

  lemma UpperOfLower(s: string)
    ensures Upper(Lower(s)) == Upper(s)
  {
    assert forall i :: 0 <= i < |s| ==> UpperChar(LowerChar(s[i])) == UpperChar(s[i]);
  }

  /** The code-only macro era ignores letter case. */
  lemma SimpleMacroIgnoresCase(idadeCode: string)
    ensures SimpleMacro(Lower(idadeCode)) == SimpleMacro(idadeCode)
  {
    UpperOfLower(idadeCode);
  }

  /** "JK" and "CM" in the prefix rules are shadowed by "J" and "C(?!C)". */
  lemma ShadowedPrefixes(u: string)
    ensures StartsWith(u, "JK") ==> StartsWith(u, "J")
    ensures StartsWith(u, "CM") ==> StartsWith(u, "C") && !StartsWith(u, "CC")
  {
    if StartsWith(u, "JK") {
      assert u[..1] == u[..2][..1];
    }
    if StartsWith(u, "CM") {
      assert u[..1] == u[..2][..1];
    }
  }

  // ---------------------------------------------------------- domino_ok

  const AllMacros: set<Macro> := {PreCambrian, Paleozoic, Mesozoic, Cenozoic}

  /** allowed_set in classify. */
  function AllowedSet(me: Option<Macro>): (r: set<Macro>)
    ensures me.Some? ==> r == {me.value}
  {
    if me.Some? then {me.value} else AllMacros
  }

  /** domino_ok: the code-derived era is empty or allowed by the resolved one. */
  predicate DominoOk(idadeCode: string, me: Option<Macro>) {
    var se := SimpleMacro(idadeCode);
    se.None? || se.value in AllowedSet(me)
  }

  /**
   * A feature passes exactly when the code gives no era, the fields give
   * no era, or the two agree.
   */
  lemma DominoOkIff(idadeCode: string, me: Option<Macro>)
    ensures DominoOk(idadeCode, me) <==>
              SimpleMacro(idadeCode).None? || me.None? || SimpleMacro(idadeCode) == me
  {
    var se := SimpleMacro(idadeCode);
    if se.Some? && me.None? {
      assert se.value in AllMacros by {
        match se.value
        case PreCambrian =>
        case Paleozoic =>
        case Mesozoic =>
        case Cenozoic =>
      }
    }
  }

  // ---------------------------------------------------------- one feature

  datatype EnforceMode = Flag | Mask

  /** The columns classify adds for one feature before the name merge. */
  datatype Classified = Classified(
    idadeCode: string, coarse: string, siglaEra: Option<Macro>,
    eonDomino: EonLabel, macroEra: Option<Macro>, dominoOk: bool)

  /**
   * The domino columns for one feature, given its parsed age code and
   * coarse group; in mask mode a failing feature loses its group.
   */
  function ClassifyDomino(idadeCode: string, coarse: string,
                          eonMin: Option<string>, eonMax: Option<string>,
                          eraMin: Option<string>, eraMax: Option<string>,
                          mode: EnforceMode): (r: Classified)
    ensures r.idadeCode == idadeCode && r.siglaEra == SimpleMacro(idadeCode)
    ensures var eon := ChooseMinMax(eonMin, eonMax, EonDomain);
      r.eonDomino == EonOf(eon.0, eon.1)
    ensures var era := ChooseMinMax(eraMin, eraMax, EraDomain);
      r.macroEra == MacroOf(r.eonDomino, EraStageOf(era.0, era.1), Upper(idadeCode))
    ensures r.dominoOk <==> r.siglaEra.None? || r.macroEra.None? || r.siglaEra == r.macroEra
    ensures r.coarse == (if mode == Mask && !r.dominoOk then "" else coarse)
    ensures r.macroEra.None? ==> r.eonDomino == Phanerozoic
  {
    var (a, b) := ChooseMinMax(eonMin, eonMax, EonDomain);
    var ed := EonOf(a, b);
    var (m, mx) := ChooseMinMax(eraMin, eraMax, EraDomain);
    var er := EraStageOf(m, mx);
    var me := MacroOf(ed, er, Upper(idadeCode));
    var ok := DominoOk(idadeCode, me);
    DominoOkIff(idadeCode, me);
    MacroOfWithinSpan(ed, er, Upper(idadeCode));
    Classified(idadeCode, if mode == Mask && !ok then "" else coarse,
               SimpleMacro(idadeCode), ed, me, ok)
  }
}
