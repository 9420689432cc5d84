# geomageddon styler core, in Dafny

This project models the deterministic core of `GeoSiglaStyler`, the class of
geomageddon that classifies geological map units and colours them. It also
models the pure helpers of the plotting module. The model covers:

- **Colour helpers.** Hex <-> RGB, the first three digit runs of an RGBA
  string, `mix_two`, `mix_many` and `mix_weighted`. `jitter` is modelled
  over caller-supplied HLS conversions.
- **SIGLA parser.** The age code (with the Cambrian `C_CORTADO_` rule), the
  tokens after it, the Greek token, the letter stem and the coarse group.
- **Age-consistency rules of `classify`.** `_choose_minmax`, the eon and era
  labels, the macro-era decision table, the code-only macro table,
  `domino_ok` and mask mode.
- **Name merge and Cenozoic collapse.** Both are in-place updates of an array
  of feature records. `_pick_canonical_grp` is modelled too.
- **Colour resolution.** Flattening of the age-colour table, the longest-first
  age-colour search, the SIGLA lookup and the `load_sigla_qml` state update.
  Then the area-weighted mixes per column, the QML column choice, the
  preliminary colour and the three collision rounds of
  `_build_color_map_for_coarse`.
- **Figure scale.** The constructor's checks, `_to_mm`, the content width,
  the exact and truncated scale, and `_round_nice`.
- **Decision logic of `cull_small_parts_by_scale`.** The area threshold, the
  small/big partition, the per-feature target choice over candidate records,
  the all-small fallback and the `to_union` / `to_drop` bookkeeping.
- **Plot helpers.** `_nice_step`, `_label_from_group`, the plot order with
  its colour table, and the legend sections.

Each module is one file:

- `common.dfy` (Common): ASCII string helpers and string order.
- `colour.dfy` (Colour)
- `parser.dfy` (CodeParser)
- `domino.dfy` (AgeDomino)
- `namemerge.dfy` (NameMerge)
- `agecolour.dfy` (AgeColour, which holds the `Styler` class)
- `weighted.dfy` (WeightedColour)
- `colourmap.dfy` (ColourMap)
- `scale.dfy` (Scale)
- `consolidate.dfy` (Consolidate)
- `plotting.dfy` (Plotting)

Where the source changes state step by step, the model does the same:

- A method with loop invariants does the work.
- It is proved equal to a specification function.
- The properties are proved as lemmas about that function.

Some conventions hold throughout:

- Floats are exact reals.
- Python's `int()` on a float is truncation toward zero (`Colour.Trunc`).
- Python's `round` is half-to-even (`Colour.RoundHalfEven`).
- Dictionaries whose order matters are association lists, or sequences in
  first-insertion order.

## Model

| member | source | states |
|---|---|---|
| Colour.HexToRgb | code/geomageddon.py:23-25 | a parsed colour has each channel in 0..255 |
| Colour.RgbToHex | code/geomageddon.py:27-29 | the result is `#` plus six upper-case hex digits, and parsing it back gives the triple with each channel clamped to 0..255 |
| Colour.RgbToHexOfHexToRgb | code/geomageddon.py:23-29 | a canonical hex string survives parse-then-format unchanged |
| Colour.RgbaToHex | code/geomageddon.py:31-37 | the result is "" exactly when the string has fewer than three digit runs, otherwise a canonical hex |
| Colour.RgbaRoundTrip | code/geomageddon.py:31-37 | `_rgba_to_hex(_hex_to_rgba(h, a))` is the canonical form of `h`, whatever the alpha |
| Colour.MixTwo | code/geomageddon.py:40-47 | "" exactly when both inputs are empty; with one input empty, the other one verbatim; otherwise a canonical hex |
| Colour.MixTwoBetween | code/geomageddon.py:40-47 | for a in [0, 1], each mixed channel lies between the two input channels |
| Colour.MixTwoHalf | code/geomageddon.py:40-47 | at a = 0.5 each channel is (x1 + x2) div 2 |
| Colour.MixTwoAtZero | code/geomageddon.py:40-47 | at a = 0 the result is the first colour |
| Colour.MixTwoAtOne | code/geomageddon.py:40-47 | at a = 1 the result is the second colour |
| Colour.MixMany | code/geomageddon.py:49-58 | "" exactly when every colour is empty, otherwise a canonical hex |
| Colour.MixManyPair | code/geomageddon.py:40-58 | `mix_many` of two non-empty colours equals `mix_two` at a = 0.5: both floor the halved channel sums |
| Colour.MixManyBetween | code/geomageddon.py:49-58 | each channel of the mean lies within the range of the input channels |
| Colour.ShiftHls | code/geomageddon.py:60-70 | the hue moves by (k+1)·φ·dh modulo 1; the lightness moves by +dl for even k and by -dl for odd k, clamped to [0, 1]; the saturation is unchanged |
| Colour.Jitter | code/geomageddon.py:60-70 | "" exactly for an empty colour, otherwise a canonical hex |
| Colour.Contributing | code/geomageddon.py:120-124 | the kept pairs have positive weights and parsed colours; none is kept exactly when every pair has an empty colour or a weight ≤ 0 |
| Colour.RoundHalfEven | code/geomageddon.py:131 | the result is within 0.5 of x, and on an exact half it is even |
| Colour.MixWeighted | code/geomageddon.py:120-131 | "" exactly when no pair contributes, otherwise a canonical hex |
| Colour.MixWeightedBetween | code/geomageddon.py:120-131 | each channel of the weighted mean lies between the smallest and largest contributing channel |
| Colour.MixWeightedScaleInvariant | code/geomageddon.py:120-131 | scaling every weight by one positive constant leaves the result unchanged |
| CodeParser.ExtractIdadeCode | code/geomageddon.py:1126-1142 | the code is the maximal leading `[A-Z0-9_]` run, with `CORTADO_` appended exactly when that run ends in `C_` and the rest starts with `cortado_` in any case; it holds only code characters and is never longer than the SIGLA |
| CodeParser.ExtractIdadeCodeIsPrefix | code/geomageddon.py:1126-1142 | the code is the upper-cased prefix of the SIGLA of its own length, so `cortado_` is absorbed only as `CORTADO_` |
| CodeParser.TokenizeRest | code/geomageddon.py:1144-1151 | every token is non-empty and contains no underscore |
| CodeParser.TokensOfJoin | code/geomageddon.py:1144-1151 | splitting underscore-joined tokens gives the tokens back |
| CodeParser.NormGreek | code/geomageddon.py:1153-1157 | a recognised token is one of the canonical Greek names |
| CodeParser.NormGreekIgnoresCase | code/geomageddon.py:1153-1157 | the Greek recognition does not depend on letter case |
| CodeParser.LettersStem | code/geomageddon.py:1159-1163 | there is no stem exactly when the token, with `_` stripped and its maximal run of leading digits dropped, does not start with a lower-case letter; otherwise the stem is the maximal leading lower-case run cut by `[:stem_len]`, so it is lower-case letters and never longer than stem_len |
| CodeParser.ParseSigla | code/geomageddon.py:1165-1183 | the token loop, with its skips and early break, yields the parse that the specification function defines |
| CodeParser.StemBounded | code/geomageddon.py:1163-1178 | the parsed stem is never longer than stem_len |
| CodeParser.CoarseShapes | code/geomageddon.py:1180-1182 | the coarse group is `code|greek` when a Greek token is found (even with an empty code), else `code|stem` when there is a stem, else the code alone |
| CodeParser.IdadeCodeRoundTrip | code/geomageddon.py:1443-1447 | `_get_idade_code_from_grp` recovers the age code from the coarse group that `_parse_sigla` builds |
| CodeParser.ExampleCambrian | code/geomageddon.py:1165-1183 | `C_cortado_1` gives the age code and coarse group `C_CORTADO_`, with no Greek token and no stem |
| CodeParser.ExampleGreek | code/geomageddon.py:1165-1183 | `NP3alfa_X_` gives the coarse group `NP3|alfa` |
| CodeParser.ExampleGreekWithoutCode | code/geomageddon.py:1180 | `alfa` gives `|alfa`: the Greek case applies with an empty code |
| AgeDomino.NormField | code/geomageddon.py:1113-1119 | a kept value is the stripped, upper-cased input and lies in the domain; every such input is kept |
| AgeDomino.ChooseMinMax | code/geomageddon.py:1112-1124 | both ends are missing or both are present in the domain; a valid end is kept, and a single valid end is copied onto the other |
| AgeDomino.EonOfChosen | code/geomageddon.py:1291-1297 | Precambrian exactly for two Precambrian eons; Precambrian-Palaeozoic exactly for Precambrian then Phanerozoic; Phanerozoic for an unknown pair or a Phanerozoic minimum |
| AgeDomino.EraStageIff | code/geomageddon.py:1299-1314 | an era label exists exactly when both eras are known and the maximum is the minimum or the next era; it is a single era exactly when they are equal |
| AgeDomino.HasPermFirstSearchSuffices | code/geomageddon.py:1317-1318 | has_perm equals its first regular expression alone |
| AgeDomino.HasKFirstTestSuffices | code/geomageddon.py:1319 | has_k equals `"K" in ic` |
| AgeDomino.MacroOfWithinSpan | code/geomageddon.py:1321-1339 | the macro era is "" exactly for a Phanerozoic eon with no era label; otherwise it is one of the eras the eon and era labels span, decided by NP, P and K |
| AgeDomino.SimpleMacroCambrianFirst | code/geomageddon.py:1186-1207 | `C_CORTADO` anywhere gives Palaeozoic; otherwise the result is "" exactly when none of the four prefix rules applies |
| AgeDomino.SimpleMacroReadsTwoCharacters | code/geomageddon.py:1198-1205 | without `C_CORTADO`, the macro depends only on the first two upper-cased characters |
| AgeDomino.SimpleMacroIgnoresCase | code/geomageddon.py:1191 | the code-only macro does not depend on letter case |
| AgeDomino.ShadowedPrefixes | code/geomageddon.py:1200-1204 | the `JK` and `CM` alternatives can never decide, because `J` and `C(?!C)` match first |
| AgeDomino.AllowedSet | code/geomageddon.py:1341-1343 | a known macro era allows only itself |
| AgeDomino.DominoOkIff | code/geomageddon.py:1344-1347 | domino_ok holds exactly when the code-derived macro is "", or the resolved macro is not one of the four eras, or the two are equal |
| AgeDomino.ClassifyDomino | code/geomageddon.py:1281-1349 | a row's classification: the eon label is EonOf of the chosen eon pair and the macro era is MacroOf of that label, the chosen era pair's stage and the upper-cased code (so EonOfChosen, EraStageIff and MacroOfWithinSpan apply to the row); domino_ok as above; mask mode clears the coarse group exactly when domino_ok fails; an unknown macro era comes with a Phanerozoic eon label |
| NameMerge.NormNameShape | code/geomageddon.py:1209-1218 | a normalised name has no lower-case letter, no leading or trailing space and no two spaces in a row |
| NameMerge.Candidates | code/geomageddon.py:1372-1373 | the distinct groups of a cluster other than "" and "nan", without repeats |
| NameMerge.BestIsFirst | code/geomageddon.py:1388-1392 | the chosen group is a candidate, and no candidate ranks before it under (-global weight, -cluster weight, name) |
| NameMerge.BestUnique | code/geomageddon.py:1388-1392 | the ranking key is a strict total order, so the first candidate is unique |
| NameMerge.PickCanonical | code/geomageddon.py:1221-1254 | None exactly when every group is empty or "nan"; otherwise a non-empty group of the subset |
| NameMerge.PickCanonicalHeaviest | code/geomageddon.py:1238-1253 | with two or more groups, the pick has the largest weight, and ties go to the alphabetically first group |
| NameMerge.MergeByName | code/geomageddon.py:1351-1393 | the in-place loop over name clusters leaves the array equal to the merge specification of the original rows |
| NameMerge.AssignCluster | code/geomageddon.py:1393 | the `.loc` write sets the group of exactly the cluster's rows |
| NameMerge.MergeTouchesOnlyGroups | code/geomageddon.py:1362-1393 | only the group field changes, and only in a mergeable cluster: same non-empty name, at least two groups, all domino_ok, at most one macro era |
| NameMerge.MergedClusterAgrees | code/geomageddon.py:1381-1393 | every member of a merged cluster, including members with an empty group, gets the same group: the first candidate under the key, with global weights taken before the loop |
| NameMerge.MergedRowGroup | code/geomageddon.py:1392-1393 | a row of a mergeable cluster gets that cluster's canonical group |
| NameMerge.UnmergedClusterKept | code/geomageddon.py:1370-1380 | a cluster that is not mergeable is left untouched |
| NameMerge.MergeIdempotent | code/geomageddon.py:1351-1393 | merging a second time changes nothing |
| NameMerge.MergedClusterSettled | code/geomageddon.py:1372-1393 | after the merge a cluster that was mergeable has a single group and so is mergeable no more |
| NameMerge.CollapseCenozoic | code/geomageddon.py:1397-1403 | rows with Cenozoic macro era, domino_ok and a non-empty group get the collapse label; all other rows are unchanged |
| NameMerge.CollapseIdempotent | code/geomageddon.py:1397-1403 | collapsing twice is collapsing once, and every collapsible row carries the label |
| AgeColour.GetPut | code/geomageddon.py:1439 | a dictionary write changes the lookup of its key only |
| AgeColour.NormCodeIsUpper | code/geomageddon.py:1434-1438 | the Cambrian rewrite is the upper-case code itself |
| AgeColour.FlattenAgeMap | code/geomageddon.py:1427-1440 | the nested loops build the flat table the specification defines |
| AgeColour.FlattenLastWins | code/geomageddon.py:1427-1440 | the flat table has distinct, non-empty, upper-case keys, and each code maps to the colour of its last entry |
| AgeColour.LongestFirst | code/geomageddon.py:1462 | the sorted tokens are exactly the table's keys |
| AgeColour.TokenMatchesPlain | code/geomageddon.py:1470-1472 | a token other than `P` and `C_CORTADO` matches exactly when it occurs in the code; the `startswith` test adds nothing |
| AgeColour.FindIdadeColor | code/geomageddon.py:1460-1476 | the search loops return the colour the specification defines |
| AgeColour.IdadeColourFromMatch | code/geomageddon.py:1460-1476 | the result is the colour of the first matching token in longest-first order, or "" |
| AgeColour.IdadeColourLongestFirst | code/geomageddon.py:1462-1472 | the winning token is a longest matching key, and among keys of its length the earliest in table order (a stable sort) |
| AgeColour.FallbackIsDead | code/geomageddon.py:1473-1475 | the fixed fallback list can never find a colour the first loop missed |
| AgeColour.LookupSiglaColor | code/geomageddon.py:1070-1079 | an empty table gives ""; an exact key wins, then the upper-cased SIGLA, then the lower-cased one; a non-empty result comes from the table; with none of the exact, upper and lower forms present the result is "" |
| AgeColour.Styler.constructor | code/geomageddon.py:247-259 | the SIGLA table and the palette list start empty |
| AgeColour.Styler.LoadSiglaQml | code/geomageddon.py:972-993 | empty palettes are skipped; every other palette (case-duplicated when asked) is appended to the palette list and written over the SIGLA table |
| AgeColour.NormalizeCaseCloses | code/geomageddon.py:980-985 | with case normalisation every key is present as written, upper-cased and lower-cased |
| AgeColour.LoadedKeepsAndOverrides | code/geomageddon.py:990-993 | loading never removes a key, and the last non-empty palette's entries win |
| AgeColour.LookupAfterLoad | code/geomageddon.py:972-993 | after a case-normalised load, a SIGLA of the last palette is found in its own, upper and lower case |
| AgeColour.NormKey | code/geomageddon.py:72-75 | the key has no upper-case letter |
| AgeColour.NormKeyInsensitive | code/geomageddon.py:72-75 | the key ignores letter case and surrounding blanks, and normalising a key again changes nothing |
| WeightedColour.InGroup | code/geomageddon.py:1531-1534 | the selected rows are exactly the rows of the group |
| WeightedColour.AreaByValue | code/geomageddon.py:1535-1538 | one entry per value, in sorted order, with the summed area of the value's rows (a missing area counts as 0) |
| WeightedColour.WeightedItemsForColumn | code/geomageddon.py:1518-1556 | the item loop yields the pack the specification defines; for a group whose rows all lack the column that pack is empty, where the source as written raises (see Findings) |
| WeightedColour.WeightedItemsRaisesIff | code/geomageddon.py:1538-1539 | as written, the call raises a TypeError exactly when the column exists, the group has rows and none of them has a value in the column; otherwise it returns the pack of the specification |
| WeightedColour.AllMissingGivesEmptyPack | code/geomageddon.py:1528-1530 | when no row of the group has a value in the column, the specification gives the empty pack, as for a column the frame does not have |
| WeightedColour.AllMissingRaises | code/geomageddon.py:1538-1539 | for a table with one row of group `G` that lacks the column, the code as written raises and the specification gives the empty pack |
| WeightedColour.PackWeightsSumToOne | code/geomageddon.py:1539-1551 | the total is the sum of item areas; every item has positive area; with items present the weights sum to 1 |
| WeightedColour.PackMixIffColoured | code/geomageddon.py:1552-1555 | the mix is a colour, and it is non-empty exactly when some item has a colour |
| WeightedColour.MixHasArea | code/geomageddon.py:1539-1555 | a non-empty mix comes with a positive total area |
| WeightedColour.MixWeightedFromColumn | code/geomageddon.py:1559-1591 | the loops over values give the mix the specification defines |
| WeightedColour.MixFromColumnAgrees | code/geomageddon.py:1518-1591 | `_mix_weighted_from_column` gives the same colour as the mix of `_weighted_items_for_column` |
| WeightedColour.NoAreaNoWeights | code/geomageddon.py:1572-1573 | with every area missing, no weight survives, which is the early return "" |
| WeightedColour.CollectUniqueForGroup | code/geomageddon.py:1450-1458 | the filter loop gives the collector the specification defines (missing values skipped) |
| WeightedColour.CollectUniqueMeaning | code/geomageddon.py:1450-1458 | the result has no repeats and holds exactly the group's values that are non-empty and not "nan", for a column that exists |
| WeightedColour.CollectUniqueRaises | code/geomageddon.py:1455-1456 | as written, a missing value in the group makes the filter raise |
| WeightedColour.CollectUniqueRaisesOnMissing | code/geomageddon.py:1455-1456 | for a table with one row of group `G` whose cell in the collected column is missing, the code as written raises, while the guarded collector returns no values (in the whole colour-map build this input already raises at line 1538, see Findings) |
| WeightedColour.OnePresentOneMissing | code/geomageddon.py:1450-1458 | for a group with one row holding `v` in the column and one row lacking it, no weighted pack raises, the collector as written raises, and the guarded collector returns `[v]` |
| WeightedColour.CollectUniqueAgrees | code/geomageddon.py:1450-1458 | with no missing values, the code as written and the guarded collector agree |
| WeightedColour.SiglaColumns | code/geomageddon.py:1017-1021 | the auto-detected columns are exactly those named `sigla` or `sigla_*` in any case |
| WeightedColour.AutoCandidatesOrder | code/geomageddon.py:1016-1028 | the candidates are the SIGLA-like columns without repeats, with an exact `sigla` first |
| WeightedColour.BestOfIsFirstLargest | code/geomageddon.py:1030-1042 | the choice is a column with a non-empty mix and positive area, of largest area, the first such on ties; None exactly when no column qualifies |
| WeightedColour.BestQmlMixForGroup | code/geomageddon.py:997-1065 | the candidate loop and the `sigla` fallback give the choice the specification defines |
| WeightedColour.BestQmlCoversMost | code/geomageddon.py:997-1065 | a chosen column exists and its pack is returned; no candidate with a mix covers more area; a mix is found whenever some candidate has one |
| ColourMap.Prelim | code/geomageddon.py:1662-1671 | the preliminary colour is the QML mix, else the colour of a single known ROC class, else the age colour, else `#DDDDDD`; it is never "" when the ROC table has no empty colours; a missing ROC cell is skipped by the corrected collector, where the source as written raises (see Findings) |
| ColourMap.RocCellMissing | code/geomageddon.py:1642-1671 | for a group with one row whose `CLASSE_ROC` is `v` and one row without it, no weighted pack raises, so the preliminary loop is reached; there the collector as written raises, while the model's preliminary colour skips the cell and gives the ROC colour of `v` when the table knows it, else the age colour, else `#DDDDDD` |
| ColourMap.DupSetsOf | code/geomageddon.py:1676-1681 | the inversion loop gives the lists of groups per colour, in first-insertion order, that have more than one member |
| ColourMap.DupSetsAreShared | code/geomageddon.py:1676-1681 | a group is in a duplicate set exactly when another group has its colour |
| ColourMap.RecolourDuplicates | code/geomageddon.py:1684-1699 | rounds A and B recolour exactly the groups of the duplicate sets taken at the round's start |
| ColourMap.RoundAClosedForm | code/geomageddon.py:1684-1689 | in round A, a group sharing its colour and having a ROC mix gets `mix_two(idade or roc, roc, 0.5)`; every other group keeps its entry |
| ColourMap.RoundBClosedForm | code/geomageddon.py:1695-1699 | in round B, a group sharing its colour gets its base mixed half-way with R1, or the base alone without R1; every other group keeps its entry |
| ColourMap.RecolouredFields | code/geomageddon.py:1684-1699 | rounds A and B change only group colours |
| ColourMap.RecolourIdempotent | code/geomageddon.py:1684-1699 | a recolouring step does not read the colour it replaces, so repeating it changes nothing |
| ColourMap.JitterOne | code/geomageddon.py:1710-1712 | jitter changes only the group colour, and the new colour is never "" |
| ColourMap.JitterRounds | code/geomageddon.py:1704-1714 | round C keeps every group and makes at most three passes |
| ColourMap.JitterRoundsFields | code/geomageddon.py:1704-1714 | round C changes only group colours; every other field of every entry stays |
| ColourMap.JitterDuplicates | code/geomageddon.py:1704-1714 | the `while` loop gives the map and pass count that round C's specification defines |
| ColourMap.JitterStopsWhenDistinct | code/geomageddon.py:1706-1714 | if round C stops before its third pass, no group shares its colour |
| ColourMap.BuildColourMap | code/geomageddon.py:1596-1719 | the derived-field loop, the preliminary loop and the three rounds give the colour map the specification defines |
| ColourMap.ColourMapFields | code/geomageddon.py:1613-1660 | the map has exactly the listed groups; each keeps the age, QML, ROC and R1 fields derived for it, and only its group colour is rewritten |
| Scale.Validate | code/geomageddon.py:272-284 | the settings are accepted exactly when both units are known, a pixel width has a positive dpi, rounding is None or "nice", the mode is ceil or nearest and the minimum area is positive |
| Scale.ToMm | code/geomageddon.py:650-662 | a known unit in any case converts by its factor (pixels by 25.4/dpi); pixels without a positive dpi and unknown units are refused |
| Scale.ValidWidthConverts | code/geomageddon.py:650-662 | a width the constructor accepts always converts |
| Scale.MarginPxNotChecked | code/geomageddon.py:272-284 | a pixel margin without dpi passes the constructor and is refused only by `_to_mm` |
| Scale.ContentWidth | code/geomageddon.py:696-697 | the content width is paper minus both margins, but never below 1e-6 mm |
| Scale.FloorLog10Bounds | code/geomageddon.py:667 | 10^k ≤ n < 10^(k+1) for the computed k = floor(log10 n) |
| Scale.FloorLog10Unique | code/geomageddon.py:667 | the computed exponent is the only k with 10^k ≤ n < 10^(k+1) |
| Scale.RoundNice | code/geomageddon.py:664-682 | the loops with their early return and running best give the value the specification defines |
| Scale.RoundNiceCeilCovers | code/geomageddon.py:668-674 | in ceil mode the result is at least n and below 2n + 1, and the loop always returns before its fallback |
| Scale.RoundNiceNearestClosest | code/geomageddon.py:675-682 | in nearest mode the result rounds the first candidate of least distance to n |
| Scale.RoundNiceNearestPositive | code/geomageddon.py:675-682 | in nearest mode an n ≥ 1 gives at least 1 |
| Scale.RoundNiceNearestZero | code/geomageddon.py:675-682 | in nearest mode n = 0.7 gives 0 |
| Scale.WidthToScale | code/geomageddon.py:695-751 | a positive map width gives a positive exact ratio; N is its truncation, or its nice rounding |
| Scale.NiceCeilFits | code/geomageddon.py:744-751 | with ceil rounding, the map drawn at 1:N fits the content width |
| Scale.TruncatedScale | code/geomageddon.py:748-749 | without rounding, N ≤ exact < N + 1 |
| Scale.WorkedExample | code/geomageddon.py:695-751 | 180 mm with 10 mm margins and a 27 km map gives the exact ratio 168 750 and N = 200 000 |
| Consolidate.BelowThresholdIsTooSmallOnPaper | code/geomageddon.py:397 | an area is below the threshold exactly when, drawn at 1:N, it covers less than min_area_mm2 of paper |
| Consolidate.SelectMembers | code/geomageddon.py:411-414 | small features are exactly those below the threshold, and big ones exactly the others |
| Consolidate.SelectIncreasing | code/geomageddon.py:411-414 | the selected positions keep the original order |
| Consolidate.TouchPassMeaning | code/geomageddon.py:477-490 | the first pass finds a target exactly when some other candidate intersects; it is the first intersecting candidate of largest area |
| Consolidate.NearPassExact | code/geomageddon.py:491-503 | with exact comparison, the second pass takes the nearest measured candidate; among equally near ones, the largest area, and the first on a full tie |
| Consolidate.NearPassPicksMeasured | code/geomageddon.py:491-503 | for any tolerance, the second pass picks a measured candidate, and finds one whenever one exists |
| Consolidate.ChooseIsCandidate | code/geomageddon.py:477-507 | a small feature is merged only into one of its candidates, never into itself |
| Consolidate.ChoosePrefersTouching | code/geomageddon.py:477-507 | when any candidate intersects, an intersecting candidate of largest area wins |
| Consolidate.ChooseTarget | code/geomageddon.py:477-503 | the two candidate loops give the target that the specification defines |
| Consolidate.Assign | code/geomageddon.py:505-507 | the bookkeeping loop builds the to_union and to_drop the specification defines |
| Consolidate.UnionMeaning | code/geomageddon.py:505-507 | to_union has a list for exactly the chosen targets, holding the features that chose it, in order |
| Consolidate.DropMeaning | code/geomageddon.py:505-507 | to_drop holds exactly the small features that found a target |
| Consolidate.IdxMaxIsFirstLargest | code/geomageddon.py:612 | idxmax is the first position of largest area |
| Consolidate.CullPlan | code/geomageddon.py:385-414 | the ValueError of an empty frame exactly when there is no feature; no change exactly when every feature reaches the threshold |
| Consolidate.CullSmallParts | code/geomageddon.py:385-618 | the ValueError of an empty frame first, then the decision steps, give the plan the specification defines |
| Consolidate.BigFeaturesSurvive | code/geomageddon.py:411-507 | a big feature is never dropped |
| Consolidate.AllSmallKeepsLargest | code/geomageddon.py:611-618 | when every feature is small, all features except the first largest are dropped and merged into it |
| Consolidate.CullPlanAllSmall | code/geomageddon.py:611-618 | when every feature is small, the plan is the fallback plan that merges everything into idxmax |
| Consolidate.FallbackDrops | code/geomageddon.py:614-617 | the fallback drops exactly the small features other than the target |
| Consolidate.FallbackUnites | code/geomageddon.py:614-617 | when another small feature exists, the fallback gives the target one union list with exactly the other small features |
| Plotting.NiceStep | code/plotagem.py:34-45 | the step is always positive; a span ≤ 0 gives 1.0 |
| Plotting.NiceStepNearRaw | code/plotagem.py:38-45 | for a positive span, the step is 1, 2, 5 or 10 times the power of ten just below span/target, and lies in (2/3, 5/3] times span/target |
| Plotting.RemoveSeparators | code/plotagem.py:129 | the result has no `|` and no `_` |
| Plotting.CambrianUnmarked | code/plotagem.py:127 | text with no Cambrian marker is unchanged by the substitution |
| Plotting.ReplaceRoundTrip | code/plotagem.py:139-140 | replacing a Greek name by a symbol that is absent from the text loses nothing: undoing the replacement gives back the text, up to case |
| Plotting.LabelHasNoSeparators | code/plotagem.py:124-141 | the label never contains `|` or `_` |
| Plotting.LabelFromGroup | code/plotagem.py:124-141 | the rewriting loop gives the label the specification defines: Cambrian marker, then separators, then Greek names in table order |
| Plotting.KnownColoursMeaning | code/plotagem.py:157-161 | the known colours hold exactly the non-empty legend groups, each with the colour of its last legend item |
| Plotting.CategoriesArePresent | code/plotagem.py:164-172 | over the stripped data values, the plot list holds exactly the present groups: first the legend's present groups in block order, then the remaining ones, sorted |
| Plotting.PlotsStrippedValues | code/plotagem.py:163-172 | a group is plotted exactly when some data value, stripped, equals it |
| Plotting.ColourByGroupCovers | code/plotagem.py:173 | every plotted group gets its legend colour, or `#DDDDDD` when none is known |
| Plotting.PlotOrder | code/plotagem.py:146-173 | from the raw data column, stripped value by value, the loops give the plot list and the colour table the specification defines |
| Plotting.LegendSectionsMeaning | code/plotagem.py:177-191 | the sections come in the order Mesozoic, Palaeozoic, Proterozoic, Archean; never Cenozoic; one per non-empty block; each keeps exactly the block's items whose group is present |
| Plotting.LegendSectionsOrdered | code/plotagem.py:177-191 | the sections follow the era order Mesozoic, Palaeozoic, Proterozoic, Archean with no era repeated |
| Plotting.LegendSectionsComplete | code/plotagem.py:177-191 | every non-Cenozoic era with a non-empty legend block gets a section |

## Left out

- Geometry and CRS work are not modelled. This covers `_area_series`,
  `representative_point`, `intersects`, `distance`, `unary_union`,
  `buffer(0)`, the projection and bounds in `width_to_scale`, `dissolve_by`,
  `explode_multipart` and `_clip_by_bbox`. Areas, the map width in metres,
  and each small feature's candidates are inputs instead. Each candidate
  carries the answers of `intersects` and `distance`; a failed call is None.
- The KDTree neighbour query is an input as well. The STRtree tier and the
  sjoin/sjoin_nearest tier (4C) of `cull_small_parts_by_scale` are left out
  as geometry. Tier 4C runs whenever a big feature exists and a small
  feature is still undropped, even after a successful KDTree pass. So the
  model's plan may leave unassigned a small feature that 4C would merge, for
  example one whose `intersects` and `distance` calls all failed.
  `_finish_union_drop` is modelled as the resulting plan.
- File, XML and JSON I/O is not modelled: `_parse_qml_value_color_map`,
  `_ensure_sigla_qml_loaded`, `make_qml`, `save_shp`, `make_legend_json`,
  `export_qml` and `export_legend_json`. `Styler.LoadSiglaQml` receives the
  palettes that were already read.
- Unicode NFD accent stripping and Unicode case mapping are not modelled in
  `_norm_key`, `_norm_txt`, `_norm_nome_value` and `_choose_minmax`. Inputs
  follow ASCII semantics: only `a`-`z` and `A`-`Z` change case.
- Colour.HexToRgb: strips every leading `#` and reads the first six
  characters as three hex pairs, ignoring anything after them, so
  `"ABCDEF"`, `"##ABCDEF"` and `"#ABCDEF99"` parse as in Python. It refuses
  pairs that Python's `int(..., 16)` accepts: a signed pair (`"#-F0000"`
  gives red -15, later clamped to 0), whitespace inside a pair, a
  five-character tail whose last pair is one digit (`"#12345"` gives blue 5)
  and non-ASCII digits.
- ColourMap.ValidConfig: requires every colour of the user tables
  (`idade_code_color_map`, `classe_roc_colors`, the QML palettes) to be ""
  or parseable. The source has no such check. A malformed colour such as
  `"#FFF"` or `"red"` is kept verbatim as the group colour when nothing mixes
  it (geomageddon.py:1669-1671, no duplicates), and raises ValueError in
  `_hex_to_rgb` when round A or B, `mix_weighted` or `jitter` mixes it. The
  model does not cover such configurations.
- WeightedColour.WeightedItems: for a group whose rows all lack the column
  (possible only in a frame not produced by `classify`), the model returns
  the empty pack where the source as written raises a TypeError
  (geomageddon.py:1538-1539, see Findings). WeightedColour.BestQmlMixForGroup,
  WeightedColour.MixFromColumnAgrees and ColourMap.BuildColourMap use this
  corrected pack, so on such a frame they return where `_best_qml_mix_for_group`
  and `_build_color_map_for_coarse` raise.
- WeightedColour.ValidTable: requires the same of the colour tables it
  reads, for the same reason as ColourMap.ValidConfig.
- Colour.MixTwo: requires both colours to be "" or parseable. Python
  returns a malformed colour verbatim when the other one is "", and raises
  ValueError when both are non-empty.
- Colour.MixMany: requires every colour to be "" or parseable; Python
  raises ValueError on any other non-empty colour.
- Colour.MixWeighted: requires every colour to be "" or parseable; Python
  raises ValueError on any other non-empty colour that has a positive
  weight.
- Colour.Jitter: `colorsys.rgb_to_hls` and `hls_to_rgb` are parameters,
  because they are floating-point library conversions.
- Floating point is not modelled: floats are exact reals. `np.isfinite` is
  always true for a real, and `np.isclose` takes its tolerances as a
  parameter.
- pandas mechanics become sequences of records. This covers `groupby` (in
  sorted value order), `pd.unique` (first-occurrence order) and
  `astype("string")`. A missing cell is None.
- The name merge's row weights are the feature counts or the supplied areas.
  The `_area_series` failure fallback to counts is not modelled.
- `simplified_legend_dict`, `build_legend_dict`, `make_legend_json` and the
  rendering parts of `plot_geodf_by_simplified_legend` are not modelled;
  they are output formatting. The legend is an input of `Plotting`.
- The styler's state beyond the SIGLA table and the palette list is not
  modelled. That includes the cached frames, the colour map and the audit
  dictionary, which records snapshots only.
- `combine_and_classify` and `merge` are not modelled: they only chain
  `classify` with dataframe plumbing.
- AgeDomino.ClassifyDomino: line 1301 of `classify` reads the era maximum
  from the eon pairs, but line 1302 overwrites it at once. The model uses the
  era pairs only.

## Findings

| source | as written | input that shows it | evidently intended | confidence | as-written member | corrected member |
|---|---|---|---|---|---|---|
| code/geomageddon.py:1455-1456 | `if v` on the values of `astype("string")` raises a TypeError for a missing cell, because the truth value of pandas' NA is ambiguous | a group with no QML mix, one row whose `CLASSE_ROC` is a value `v` other than `""` and `"nan"` and one row without it, in a frame not produced by `classify` (which blanks missing cells at lines 1413-1415); the weighted packs at lines 1644 and 1653 return, so line 1667 is reached | a missing value is skipped like `""` and `"nan"` | medium, not executed | ColourMap.RocCellMissing | WeightedColour.CollectUniqueMeaning |
| code/geomageddon.py:1538-1539 | when no row of the group has a value in the column, `groupby(col).apply(...)` has no group and returns an empty frame, whose `to_dict()` maps each column to an empty dict; `a > 0` on a dict raises a TypeError | a group `G` with one row that lacks `CLASSE_ROC`, in a frame that has the column but was not produced by `classify`; the call at line 1644 raises | the empty pack, as for a column the frame does not have (lines 1529-1530) | low, not executed; the empty-frame result of `apply` depends on the pandas version | WeightedColour.AllMissingRaises | WeightedColour.AllMissingGivesEmptyPack |
