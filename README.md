# Matupiri: eligibility rules, search and ETL helpers, modelled in Dafny

Matupiri helps artisanal fishers of Pará find the public policies they
qualify for. A user registers a profile (state, town, documents held,
answers such as "has a fishing licence"). The application checks every
policy's requirement rows and required documents against it, searches the
policy catalogue by keyword, shows closed seasons (defesos) and protected
areas, and is fed by ETL scripts that turn the source spreadsheets and
shapefiles into tidy tables.

This project models that logic in Dafny and proves what it promises. It
covers:

- **The eligibility engine of the two result pages.** This is the operator
  dispatch (`Operators`), the per-policy tally of requirement rows and
  documents (`Eligibility`), and the page loops around it (`ResultAuto`,
  `ResultManual`). The loops include the status ordering of the automatic
  page and the contact lookup of the manual page. Both pages are proved to
  compute the same specification.
- **The keyword batch split and the search index.** These are
  `PoliciesEngine` and `SearchIndex`: normalisation, synonym injection,
  whole-word scoring, level filter, ranking and truncation.
- **The utilities.** These are the CPF/CNPJ check digits and masks
  (`ValidatorsBr`), text normalisation and coercions (`TextUtils`), and
  period labels (`Dates`).
- **The pydantic models.** These are `Policy`, `Requirement`, `UserProfile`
  and `Region`, with their field validators (`ModelFields`).
- **The services, config and registration-page helpers.** These are the
  defeso calendar and protected-area filters (`DefesoCalendar`,
  `UcCatalog`), the coordinate-column guess (`Geo`), the layered path
  configuration (`Config`) and the registration-page profile helpers
  (`Cadastro`).
- **The ETL helpers.** These are the defeso spreadsheet reshaping
  (`EtlDefesos`), the policy text normalisations and summaries
  (`EtlPolicies`), the catalogue builder (`EtlCatalog`), the alias
  renaming (`EtlCommon`), the UC column clean-up (`EtlUcs`) and the IBGE
  input lookup (`EtlShapefile`).
- **Shared modules for Python's own behaviour.** `PyStr` covers `str`
  methods, `PyValue` Python values, `str()` and truthiness, `PyFloat`
  `float()` on text, `Seqs` comprehensions, stable sort and
  `drop_duplicates`, and `Frames` data frames and boolean masks.

Code that changes state is modelled as state. The session's profile slot
(`Cadastro.Session`), the runtime path overrides (`Config.PathConfig`), the
date coercion of the defeso frame (`DefesoCalendar.DataFrame`) and the
in-place column rename (`EtlUcs.Table`) are classes with `modifies`
clauses. Loops in the source are methods with loop invariants. Each such
method is proved equal to a specification function, and the promised
properties are proved as lemmas about that function.

Inputs the code cannot see are parameters. These are the clock, the
random hex of a profile code, the environment, the legacy keyword matcher,
the regex matcher of the `regex` operator, `pd.to_datetime` and the file
readers.

Where the code and its own documentation disagree, the model follows the
code. Examples:

- `persist_profile` sets `created_at` only when it also generates a code.
  It does not do so whenever the field is absent.
- `search_policies` sorts with pandas' default, unstable, algorithm.
- Four doc-comments promise more than the code does; these are listed
  under "## Findings".


## Model

| member | source | states |
|---|---|---|
| ValidatorsBr.OnlyDigitsAreDigits | app/utils/validators_br.py:4-5 | `_only_digits` leaves only digits |
| ValidatorsBr.OnlyDigitsChars | app/utils/validators_br.py:4-5 | digits are kept in order and everything else dropped, character by character and over concatenation; `None` gives `""` |
| ValidatorsBr.OnlyDigitsOfDigits | app/utils/validators_br.py:4-5 | a digit string is its own digit string |
| ValidatorsBr.CpfDigit | app/utils/validators_br.py:19-26 | a CPF check digit, `(s * 10) % 11` with 10 read as 0, is a single digit |
| ValidatorsBr.CpfValidIff | app/utils/validators_br.py:9-28 | a CPF is valid exactly when its digits are 11, not all equal, and end in their two check digits |
| ValidatorsBr.CpfMaskShape | app/utils/validators_br.py:34 | the mask is 14 characters with `.` at 3 and 7 and `-` at 11, and holds exactly the digits it masks |
| ValidatorsBr.FormatCpfStable | app/utils/validators_br.py:30-34 | formatting twice is formatting once, and formatting never changes validity |
| ValidatorsBr.CpfFormatGroups | app/utils/validators_br.py:34 | eleven digits given as groups 3-3-3-2 are masked `a.b.c-d` |
| ValidatorsBr.CpfExamples | tests/test_utils_validators_dates.py:7-10 | `format_cpf("52998224725") == "529.982.247-25"`, that CPF is valid, and `000.000.000-00` is not |
| ValidatorsBr.CnpjDigit | app/utils/validators_br.py:46-50 | `dv(num)`, 0 when `s % 11 < 2` and `11 - r` otherwise, is a single digit |
| ValidatorsBr.CnpjValidIff | app/utils/validators_br.py:38-54 | a CNPJ is valid exactly when its digits are 14, not all equal, and end in their two check digits, the second computed over the first twelve and the first check digit |
| ValidatorsBr.CnpjMaskShape | app/utils/validators_br.py:60 | the mask is 18 characters with `.` at 2 and 6, `/` at 10 and `-` at 15, and holds exactly the digits it masks |
| ValidatorsBr.FormatCnpjStable | app/utils/validators_br.py:56-60 | formatting twice is formatting once, and formatting never changes validity |
| ValidatorsBr.CnpjFormatGroups | app/utils/validators_br.py:60 | fourteen digits given as groups 2-3-3-4-2 are masked `a.b.c/d-e` |
| ValidatorsBr.CnpjExamples | tests/test_utils_validators_dates.py:12-14 | `format_cnpj("04252011000110") == "04.252.011/0001-10"`, and `11.111.111/1111-11` is not valid |
| TextUtils.StripAccentsAscii | app/utils/text.py:6-9 | accent folding keeps the length and leaves ASCII characters unchanged |
| TextUtils.NormalizeShape | app/utils/text.py:11-18 | every result holds only `[a-z0-9 ]`, with single blanks and no blank at either end |
| TextUtils.NormalizeFixed | app/utils/text.py:11-18 | a spaced text of `[a-z0-9 ]` is its own normalization |
| TextUtils.NormalizeIdempotent | app/utils/text.py:11-18 | `normalize(normalize(s)) == normalize(s)` |
| TextUtils.NormalizeOfWord | app/utils/text.py:15-17 | a text whose folded lower-case form is already spaced `[a-z0-9 ]` normalizes to that form |
| TextUtils.TokenizeWords | app/utils/text.py:20-21 | the tokens are the words of the normalized text, each a non-empty blank-free run of `[a-z0-9]`, and joining them with blanks gives the normalized text back |
| TextUtils.WordsInText | app/utils/text.py:21 | every token occurs in the normalized text |
| TextUtils.SlugifyShape | app/utils/text.py:23-25 | a slug has no blank and only `[a-z0-9-]`, and turning its hyphens back into blanks gives the normalized text |
| TextUtils.BoolWordCases | app/utils/text.py:31-33 | a yes-word reads True, a no-word False, anything else None |
| TextUtils.ToBoolCases | app/utils/text.py:27-33 | `None` gives None, a bool is returned unchanged, and any other value is True exactly for a normalized yes-word and False exactly for a normalized no-word |
| TextUtils.ToBoolNormalized | app/utils/text.py:30 | a text and its normalization read the same |
| TextUtils.AccentedNoUnreachable | app/utils/text.py:32 | `"não"` in the no-set can never match, because normalized text is ASCII |
| TextUtils.ToBoolOfText | app/utils/text.py:30-33 | a text reads as the word its normalization is |
| TextUtils.BoolWordExamples | app/utils/text.py:31-32 | `sim` and `1` are yes-words, `nao` is a no-word, `nan` is neither |
| TextUtils.ToBoolSim | tests/test_utils_validators_dates.py:18 | `to_bool("sim") is True` |
| TextUtils.ToBoolNao | tests/test_utils_validators_dates.py:18 | `to_bool("não") is False`: the accent is folded before the lookup |
| TextUtils.ToBoolOne | app/utils/text.py:30-31 | `to_bool(1) is True` through the text `"1"` |
| TextUtils.ToBoolNaN | app/utils/text.py:30-33 | a NaN, whose text is `nan`, reads as None |
| TextUtils.SafeDefaults | app/utils/text.py:35-47 | the readers return the default exactly for `None`, `""` and text `float()` rejects, and `safe_int` also for infinities and NaN, which `int()` rejects |
| TextUtils.SafeIntReads | app/utils/text.py:38 | `safe_int` of a non-blank value whose text is a finite float is that float truncated toward zero |
| TextUtils.SafeFloatReads | app/utils/text.py:45 | `safe_float` of a non-blank value is the float its text reads with commas made points |
| TextUtils.SafeIntOfInteger | app/utils/text.py:35-40 | an integer, or its decimal text, reads back as itself through `safe_int` |
| TextUtils.SafeFloatOfInteger | app/utils/text.py:42-47 | an integer reads back as itself through `safe_float` |
| TextUtils.SafeIntFromFloat | app/utils/text.py:35-47 | when the text has no comma, `safe_int` is the truncation of what `safe_float` reads |
| TextUtils.SafeIntOfPoint | app/utils/text.py:38 | `safe_int` of a point literal `ip.fp` is its integer part `ip` |
| TextUtils.SafeFloatComma | app/utils/text.py:45 | `safe_float` of `ip,fp` is the number `ip.fp` |
| TextUtils.SafeIntTwelve | tests/test_utils_validators_dates.py:19 | `safe_int("12.0") == 12` |
| TextUtils.SafeFloatPi | tests/test_utils_validators_dates.py:20 | `safe_float("3,14") == 3.14` |
| Dates.MinusDays | app/utils/dates.py:19 | `now - timedelta(days=n)` on the calendar: a valid date, strictly earlier when `n > 0`, or nothing where Python raises OverflowError before 0001-01-01 |
| Dates.MinusThenPlus | app/utils/dates.py:19 | going back `n` days and forward `n` days returns to the same date |
| Dates.MinusDaysAdds | app/utils/dates.py:19-23 | going back `a` days and then `b` days is going back `a + b` days, and fails exactly when either step does |
| Dates.MinusFromFirst | app/utils/dates.py:19 | no day lies before 0001-01-01: subtracting any positive number of days from it overflows |
| Dates.PrevNextInverse | app/utils/dates.py:19 | the day before and the day after are inverse steps on valid dates |
| Dates.MinusDaysAt | app/utils/dates.py:19 | subtracting days from an aware datetime keeps a valid datetime with the same clock time and zone |
| Dates.IsoDateShape | app/utils/dates.py:19 | the date part of `isoformat()` is `YYYY-MM-DD`, ten characters whose digit groups read back as year, month and day |
| Dates.IsoDateInjective | app/utils/dates.py:19 | different valid dates have different ISO texts |
| Dates.IsoFormatDate | app/utils/dates.py:19-23 | `isoformat()` starts with the ISO date followed by `T`, which is what `s[:10]` in the tests reads |
| Dates.PeriodDays | app/utils/dates.py:18-23 | a label's window is 7, 30 or 90 days, the first of those numbers, in that order, whose digits occur in the label |
| Dates.PeriodRangeOpen | app/utils/dates.py:24 | a label naming no window gives `(None, None)` |
| Dates.PeriodRangeOverflow | app/utils/dates.py:16-23 | with a window, the call fails exactly when `now` minus the window falls before year 1 |
| Dates.PeriodRangeWindow | app/utils/dates.py:16-23 | otherwise the range is the ISO text of the start, `k` calendar days before `now` at the same time of day, and the ISO text of `now`; the start is strictly earlier |
| Dates.PeriodOfWeek | app/utils/dates.py:17-19 | a stripped label holding `7` names the 7-day window whatever surrounds it |
| Dates.PeriodOfAll | app/utils/dates.py:13-24 | `Tudo` and a missing label name no window |
| Dates.PeriodExamples | tests/test_utils_validators_dates.py:22-27 | "Últimos 7 dias" at 2025-08-29 12:00 UTC starts at 2025-08-22 12:00 UTC and ends at `now`; "Tudo" gives `(None, None)` |
| Operators.CoerceNumeric | app/pages/4_Resultado_auto.py:388-390 | `float(x)`: None for None, lists and dicts, the integer itself for an int, and what `float()` parses for text |
| Operators.ListItemsShape | app/pages/4_Resultado_auto.py:392-397 | every item split from a `,`/`;`/`\|` list is non-empty, stripped and free of separators |
| Operators.ClassifyComparisons | app/pages/4_Resultado_auto.py:409-414 | the operator kinds `==`, `!=`, `>=`, `<=`, `>`, `<` are picked exactly by the token sets the source tests |
| Operators.ClassifyTextual | app/pages/4_Resultado_auto.py:415-420 | the kinds `in`, `not in`, `contains`, `not contains` and regex are picked exactly by their token sets |
| Operators.ClassifyUnknown | app/pages/4_Resultado_auto.py:406-426 | a token outside every set is the unknown kind |
| Operators.ApplyNumeric | app/pages/4_Resultado_auto.py:412-415 | a numeric kind is decided by the numeric comparison |
| Operators.EqComparesText | app/pages/4_Resultado_auto.py:410 | equality compares `str(attr)` with `str(expected)` |
| Operators.NeIsNotEq | app/pages/4_Resultado_auto.py:410-411 | every inequality spelling is the exact negation of every equality spelling |
| Operators.NumericNeedsNumbers | app/pages/4_Resultado_auto.py:412-415 | a numeric comparison where either side does not coerce to a float is false |
| Operators.IntegerComparisons | app/pages/4_Resultado_auto.py:412-415 | on integers, `>=`, `<=`, `>` and `<` mean what they say |
| Operators.CompareIntegers | app/pages/4_Resultado_auto.py:412-415 | two integers compare as integers under each numeric kind |
| Operators.IntegerAgainstText | app/pages/4_Resultado_auto.py:408-412 | a profile integer against a threshold written as text compares as the two integers |
| Operators.NaNComparesFalse | app/pages/4_Resultado_auto.py:412-415 | NaN, an empty spreadsheet cell, satisfies no numeric comparison |
| Operators.InAgainstText | app/pages/4_Resultado_auto.py:392-415 | `in` against text tests `str(actual)` among the text's items |
| Operators.NotInNegates | app/pages/4_Resultado_auto.py:415-416 | `not in` is the negation of `in` |
| Operators.InAgainstOther | app/pages/4_Resultado_auto.py:392-416 | membership against anything but a list or text is false, so `not in` holds |
| Operators.NotContainsNegates | app/pages/4_Resultado_auto.py:417-418 | `contains` tests containment of `str(expected)`, and `not contains` is its negation |
| Operators.ContainsCases | app/pages/4_Resultado_auto.py:399-404 | None contains nothing, text contains case-insensitively, and a list contains what one of its elements contains |
| Operators.ContainsIgnoresCase | app/pages/4_Resultado_auto.py:401-404 | containment ignores case on both sides |
| Operators.RegexDelegates | app/pages/4_Resultado_auto.py:419-425 | the regex operators ask the matcher with `str(expected)` as pattern and `str(attr)` as subject |
| Operators.UnknownIsFalse | app/pages/4_Resultado_auto.py:426 | an unknown operator is never satisfied |
| Operators.OpTokenIdempotent | app/pages/4_Resultado_auto.py:407 | trimming and lower-casing the operator again changes nothing |
| Operators.SpellingIrrelevant | app/pages/4_Resultado_auto.py:407 | only the trimmed, lower-cased spelling of the operator matters |
| Eligibility.Get | app/pages/4_Resultado_auto.py:482 | `profile.get(k)` is None for a missing key |
| Eligibility.DocsMap | app/pages/4_Resultado_auto.py:432 | `{k: bool(v) ...}` has exactly the names of its entries as keys |
| Eligibility.ProfileDocs | app/pages/4_Resultado_auto.py:432 | the declared documents; nothing exactly when `profile["docs"]` is truthy and not a dict, where `.items()` raises |
| Eligibility.HeldExact | app/pages/4_Resultado_auto.py:498 | a document counts as held exactly when its own name maps to a truthy value in the profile's document map (built at line 432) |
| Eligibility.TallyRequirements | app/pages/4_Resultado_auto.py:474-492 | the requirement-row loop yields the specification's missing items, details, passed count, check count and hard-fail flag |
| Eligibility.TallyDocuments | app/pages/4_Resultado_auto.py:494-507 | the document loop extends a tally by the documents' missing items, details, held count and checks |
| Eligibility.TallyPolicy | app/pages/4_Resultado_auto.py:468-507 | both loops of one policy give the specification's evaluation |
| Eligibility.RowsStep | app/pages/4_Resultado_auto.py:476-492 | one more requirement row adds its own detail, pass and missing item to the tally and to nothing else |
| Eligibility.DocsStep | app/pages/4_Resultado_auto.py:496-507 | one more document adds its own detail, pass and missing item to the tally and to nothing else |
| Eligibility.RowsBlockIffMissing | app/pages/4_Resultado_auto.py:488-492 | `hard_fail` is set by the rows exactly when they append a missing item |
| Eligibility.DocsBlockIffMissing | app/pages/4_Resultado_auto.py:503-507 | `hard_fail` is set by the documents exactly when they append a missing item |
| Eligibility.EligibleIffNoMissing | app/pages/4_Resultado_auto.py:488-510 | a policy is eligible exactly when nothing is missing |
| Eligibility.NearMissIff | app/pages/4_Resultado_auto.py:511-524 | "Quase lá" holds exactly when the policy is not eligible and at most two items are missing, and then at least one is |
| Eligibility.ScoreBounds | app/pages/4_Resultado_auto.py:483-527 | one detail per check, passed checks at most all checks, and `score_total == max(1, checks)` |
| Eligibility.EmptyPolicy | app/pages/4_Resultado_auto.py:468-527 | a policy with no requirement rows and no documents is eligible with score 0/1 |
| ResultAuto.MandatoryFlag | app/pages/4_Resultado_auto.py:133 | the normalised `mandatory_flag` column is always a boolean |
| ResultAuto.MandatoryFlagOfBool | app/pages/4_Resultado_auto.py:126-133 | the flag of a `True` or `False` cell, such as the `True` default, keeps its value when line 133 normalises it |
| ResultAuto.MandatoryFlagOfEmpty | app/pages/4_Resultado_auto.py:133 | empty cells (None, NaN, `""`) are not mandatory |
| ResultAuto.MandatoryFlagSpellings | app/pages/4_Resultado_auto.py:133 | "Sim" and "YES" are mandatory, case-insensitively; the integer 1 is, 0 is not |
| ResultAuto.BuildDocsByPolicy | app/pages/4_Resultado_auto.py:174-180 | the document loop builds exactly the index in which each policy lists its non-blank documents in sheet order |
| ResultAuto.AddEntry | app/pages/4_Resultado_auto.py:180 | one `setdefault(pid, []).append(...)` keeps the index exact for the entries seen so far |
| ResultAuto.DocsForMember | app/pages/4_Resultado_auto.py:174-180 | a document is listed under a policy exactly when a row of that policy gives it with a non-blank name |
| ResultAuto.EntriesForMember | app/pages/4_Resultado_auto.py:178-180 | a document is listed under a policy exactly when its entry was appended for that policy |
| ResultAuto.AutoMatchIsVerdict | app/pages/4_Resultado_auto.py:509-527 | because of `or True`, the page's eligibility, "quase lá", missing items, details and score equal the evaluator's verdict |
| ResultAuto.EvaluateOne | app/pages/4_Resultado_auto.py:434-527 | the loop body for one policy row gives that row's match |
| ResultAuto.MatchOf | app/pages/4_Resultado_auto.py:509-527 | the appended `PolicyMatch` is the one the tally determines |
| ResultAuto.EvaluatePolicies | app/pages/4_Resultado_auto.py:428-529 | one match per policy row in sheet order, each the row's own match; nothing exactly when `profile["docs"]` is truthy and not a dict |
| ResultAuto.MatchInvariants | app/pages/4_Resultado_auto.py:509-527 | every match is eligible exactly when nothing is missing, "quase lá" exactly when not eligible with at most two misses, its score within its total, and carries its policy id |
| ResultAuto.ShownByState | app/pages/4_Resultado_auto.py:552-556 | a match is shown exactly when the checkbox of its own state is ticked |
| ResultAuto.FilterShown | app/pages/4_Resultado_auto.py:551-557 | the filter loop keeps exactly the shown matches, in order |
| ResultAuto.StatusOrder | app/pages/4_Resultado_auto.py:546-549 | the tuple key `(state, -score, name.lower())` orders matches totally and transitively |
| ResultAuto.DisplayedOrder | app/pages/4_Resultado_auto.py:551-559 | the page lists a permutation of the shown matches, sorted by the key, eligible before "quase lá" before the rest |
| ResultAuto.DisplayedStable | app/pages/4_Resultado_auto.py:559 | `sorted` is stable: matches with an equal key keep their sheet order |
| ResultManual.EvaluatePolicyForProfile | app/pages/5_Resultado_manual.py:420-474 | the policy's requirement rows and documents give the evaluator's verdict; nothing exactly when `profile["docs"]` is truthy and not a dict |
| ResultManual.PagesAgree | app/pages/5_Resultado_manual.py:420-474 | for the same rows, documents and profile, the automatic page's match and the manual page's result agree on eligibility, "quase lá", missing items, details and score |
| ResultManual.BuildContactsIndex | app/pages/5_Resultado_manual.py:219-234 | the contacts loop builds exactly the index of each `(policy, normalised key)` pair's contacts in sheet order |
| ResultManual.AddContactEntry | app/pages/5_Resultado_manual.py:227 | one `setdefault(...).append(...)` keeps the index exact for the rows seen so far |
| ResultManual.IndexKeysFiled | app/pages/5_Resultado_manual.py:223-227 | only a truthy policy id with a non-empty normalised key is filed, and only for a row that gave them |
| ResultManual.FirstOp | app/pages/5_Resultado_manual.py:574-575 | an operator found is one of the listed operators and occurs in the item |
| ResultManual.FirstOpAt | app/pages/5_Resultado_manual.py:574-578 | the operator used is the earliest listed one that occurs; none when none occurs |
| ResultManual.FirstOpSkip | app/pages/5_Resultado_manual.py:574-575 | an operator absent from the item does not affect which operator is found |
| ResultManual.FindContactsFiled | app/pages/5_Resultado_manual.py:558-580 | the lookup returns exactly the contacts filed under the key recovered from the item, in sheet order, and `[]` for an unfiled key |
| ResultManual.NormKeyOfText | app/pages/5_Resultado_manual.py:555-556 | `_norm_key` of a text is the text stripped and lower-cased |
| ResultManual.DocItemKey | app/pages/5_Resultado_manual.py:566-570 | a missing document item, as built at line 458, leads back to the document's own name, normalised as the index keys are |
| ResultManual.DocItemStarts | app/pages/5_Resultado_manual.py:566 | a document item, as built at line 458, starts with the lower-cased prefix the lookup tests |
| ResultManual.DocItemColon | app/pages/5_Resultado_manual.py:568 | splitting a document item, as built at line 458, at its first colon leaves the document's name |
| ResultManual.NotEqualFinds | app/pages/5_Resultado_manual.py:574-576 | in `"a <> v"`, `"<>"` and `">"` sit right after the attribute and its blank |
| ResultManual.NotEqualKeyAsWritten | app/pages/5_Resultado_manual.py:574-578 | with the list as written, `"renda <> 5"` is looked up under `"renda <"` |
| ResultManual.NotEqualMissesContacts | app/pages/5_Resultado_manual.py:574-578 | so an unmet `<>` requirement never finds the contacts filed under its attribute |
| ResultManual.NotEqualKeyFixed | app/pages/5_Resultado_manual.py:574-578 | with `"<>"` listed before `">"`, the key is the attribute the contacts are filed under |
| ResultManual.KeyFromOp | app/pages/5_Resultado_manual.py:575-578 | an attribute item is keyed by the stripped text before its first listed operator |
| ResultManual.FixedAgrees | app/pages/5_Resultado_manual.py:574-580 | the corrected list gives the same key as the original for every item without `"<>"` |
| Cadastro.ExtractUfCode | app/pages/2_Cadastro.py:80-81 | the extracted code is always stripped |
| Cadastro.ExtractUfCodeSpec | app/pages/2_Cadastro.py:80-81 | the code never holds the dash: it is the stripped text before the first dash, or the whole stripped label when there is none |
| Cadastro.StripKeepsDashFree | app/pages/2_Cadastro.py:81 | stripping a dash-free text leaves it dash-free |
| Cadastro.StripTrailingBlank | app/pages/2_Cadastro.py:73-81 | the blank before the dash of a label is stripped away again |
| Cadastro.ExtractOfLabel | app/pages/2_Cadastro.py:72-81 | the code extracted from a state's select label `"{uf} — {nome}"` is the state code itself |
| Cadastro.ByNameTotal | app/pages/2_Cadastro.py:149 | Python's string `<=` is a total preorder, so `sorted` is well defined |
| Cadastro.NameList | app/pages/2_Cadastro.py:149 | the sorted names become a list of exactly those texts |
| Cadastro.NormalizeForIo | app/pages/2_Cadastro.py:147-150 | the export copy raises exactly when `docs` is not a dictionary; otherwise it adds `docs_presentes` and keeps every other entry |
| Cadastro.NormalizeDocsPresent | app/pages/2_Cadastro.py:149 | `docs_presentes` lists the documents with a truthy value, as many times as listed, in ascending order |
| Cadastro.PresentNamesMember | app/pages/2_Cadastro.py:149 | a name is listed exactly when some entry with that name has a truthy value |
| Cadastro.TwoDigits | app/pages/2_Cadastro.py:153 | each `%y%m%d%H%M%S` field is two digits |
| Cadastro.TimestampShape | app/pages/2_Cadastro.py:153 | the timestamp is twelve digits |
| Cadastro.UpperHex | app/pages/2_Cadastro.py:154 | upper-casing lower-case hexadecimal gives upper-case hexadecimal |
| Cadastro.CodeShape | app/pages/2_Cadastro.py:155 | the code is laid out as `PRF-`, the timestamp, `-` and the random part |
| Cadastro.ProfileCodeShape | app/pages/2_Cadastro.py:152-155 | a generated code is 21 characters: `PRF-`, twelve digits, `-` and four upper-case hexadecimal characters |
| Cadastro.WithDefaultsSpec | app/pages/2_Cadastro.py:229-240 | `setdefault` never overwrites: a present key keeps its value, a missing listed key gets its first default, nothing else is added |
| Cadastro.EnsuredUnfold | app/pages/2_Cadastro.py:225-240 | `ensure_profile_state` applies the listed defaults in order to the slot's dictionary |
| Cadastro.EnsuredProfileSpec | app/pages/2_Cadastro.py:225-240 | afterwards every default key is present, a dictionary slot keeps its values, and a missing or non-dictionary slot becomes exactly the defaults |
| Cadastro.EnsuredHasCode | app/pages/2_Cadastro.py:229 | an ensured profile always has a `profile_code` entry |
| Cadastro.StampedSpec | app/pages/2_Cadastro.py:181-188 | a profile with a code keeps it and its creation time; one without gets the new code and, if missing, a creation time; the update time is now; the owner is set and the account only filled in for a given account; nothing else changes |
| Cadastro.StampedTwice | app/pages/2_Cadastro.py:181-188 | stamping twice at the same moment generates no second code |
| Cadastro.Stamp | app/pages/2_Cadastro.py:181-188 | the stamping statements give the stamped profile |
| Cadastro.SelectedIdSpec | app/pages/2_Cadastro.py:204-207 | the repository's truthy `id`, `profile_id` or `uuid` wins, in that order; otherwise the profile code |
| Cadastro.Session.constructor | app/pages/2_Cadastro.py:225-227 | a fresh session has no profile and no selection |
| Cadastro.Session.EnsureProfileState | app/pages/2_Cadastro.py:225-240 | the session's profile becomes the ensured profile of its old slot; the selection is unchanged |
| Cadastro.Session.PersistProfile | app/pages/2_Cadastro.py:177-215 | the session keeps the stamped ensured profile; the export copy, its code and the selected id are returned, and the selection is set to that id; when the export copy raises, the selection is unchanged |
| Config.DefaultKeysCover | app/utils/config.py:7-42 | the loop's key order lists exactly the keys that have defaults |
| Config.MergedKeys | app/utils/config.py:41-50 | the merged paths have exactly the default keys; an override for any other key never appears |
| Config.MergedPriority | app/utils/config.py:42-49 | for each key a non-empty environment value wins, then a runtime override, then the default, each normalised |
| Config.MergePaths | app/utils/config.py:41-50 | the loop of `paths()` builds exactly the merged dictionary |
| Config.MergeKeys | app/utils/config.py:42-49 | the loop over any key list with defaults builds the merge over those keys |
| Config.UpdatedLaterWins | app/utils/config.py:58 | `update` keeps earlier overrides it does not name, replaces those it names with their normalised values, and adds nothing else |
| Config.LookupMerged | app/utils/config.py:61-66 | on fresh paths the lookup raises KeyError exactly for a key without a default, and otherwise returns that key's merged value |
| Config.PathConfig.constructor | app/utils/config.py:23-33 | at import time there are no overrides and nothing is cached |
| Config.PathConfig.Paths | app/utils/config.py:33-50 | `lru_cache`: the cached dictionary is returned even if the environment changed, otherwise the merge is computed and cached; overrides are unchanged |
| Config.PathConfig.SetPaths | app/utils/config.py:52-59 | the normalised overrides are merged in (`None` adds nothing) and the cache is cleared |
| Config.PathConfig.Path | app/utils/config.py:61-66 | the lookup in `paths()`, with its caching |
| Config.SetThenPath | app/utils/config.py:52-66 | after `set_paths`, `path` sees the new overrides whatever was cached before |
| DefesoCalendar.ToStamp | app/services/defeso_calendar.py:13 | `to_datetime(errors="coerce")` leaves no text cell: text becomes a date or `NaT` |
| DefesoCalendar.Coerced | app/services/defeso_calendar.py:10-14 | coercion keeps the columns and the number of rows |
| DefesoCalendar.DataFrame.constructor | app/services/defeso_calendar.py:10 | a frame holds the given columns and rows |
| DefesoCalendar.PartialStep | app/services/defeso_calendar.py:11-13 | one pass of the column loop converts that column's cell when the frame has the column, and nothing else |
| DefesoCalendar.CoerceDates | app/services/defeso_calendar.py:10-14 | `_coerce_dates` replaces, in place, every cell of each date column the frame has by its date |
| DefesoCalendar.CoercedIdempotent | app/services/defeso_calendar.py:10-14 | coercing twice is coercing once, so the second coercion in `active_defesos_on` (line 58) changes nothing |
| DefesoCalendar.CoercedCells | app/services/defeso_calendar.py:10-14 | coercion keeps every cell outside the date columns; a date column's text becomes a date exactly when it parses |
| DefesoCalendar.ActiveDefesosOn | app/services/defeso_calendar.py:49-61 | a missing or empty frame comes back as is; without both date columns an empty frame with the columns; otherwise the caller's frame is coerced in place and the rows active on the day are returned |
| DefesoCalendar.ActiveRowsSelects | app/services/defeso_calendar.py:55-61 | a row is active exactly when both dates read and `inicio <= on <= fim`, both ends included; active rows keep their order and the columns |
| DefesoCalendar.ActiveExample | tests/test_services_defeso_calendar.py:7-15 | on 2025-08-10 only the PA season of the test frame is active under `active_defesos_on` |
| DefesoCalendar.FilterDefesosMasks | app/services/defeso_calendar.py:34-47 | the four filters are four conditional masks applied in turn |
| DefesoCalendar.FilterDefesosSelects | app/services/defeso_calendar.py:34-47 | on a non-empty frame the result is the one selection by the reference predicate |
| DefesoCalendar.FilterDefesosRows | app/services/defeso_calendar.py:34-47 | the result keeps the columns and the order, and holds a row exactly when the input holds it and every applicable filter accepts it |
| DefesoCalendar.SelectedByMasks | app/services/defeso_calendar.py:35-46 | the reference predicate is the conjunction of the four masks |
| DefesoCalendar.FilterDefesosEmpty | app/services/defeso_calendar.py:32-33 | a missing or empty frame comes back unchanged |
| DefesoCalendar.FilterDefesosTodas | app/services/defeso_calendar.py:45 | a sphere of `todas`, in any case, filters nothing |
| DefesoCalendar.FilterDefesosAsWrittenRaises | app/services/defeso_calendar.py:37-42 | as written the filter raises exactly for a species query on a non-empty frame lacking `especie` or `nome_popular`, and otherwise agrees with the corrected filter |
| DefesoCalendar.FilterDefesosMissingColumn | app/services/defeso_calendar.py:37-42 | a species table without `nome_popular` queried by species raises as written; the corrected filter keeps the matching row |
| DefesoCalendar.FilterExample | tests/test_services_defeso_calendar.py:17-19 | state PA with gear "re" keeps only the shrimp season under `filter_defesos` |
| DefesoCalendar.ShrimpSelected | tests/test_services_defeso_calendar.py:8-9 | the test's shrimp row passes the PA and "re" filters of `filter_defesos` |
| DefesoCalendar.FishRejected | tests/test_services_defeso_calendar.py:10-11 | the test's AM row fails the state filter of `filter_defesos` |
| DefesoCalendar.ReContained | app/services/defeso_calendar.py:44 | "re" is contained in "rede", lower-cased |
| DefesoCalendar.StatesDiffer | app/services/defeso_calendar.py:36 | "AM" and "PA" differ upper-cased |
| EtlCatalog.CollapseEnd | etl/make_policies_catalog.py:58 | `re.sub(r"\s+", " ", …)` keeps a last character that is not whitespace |
| EtlCatalog.CollapseChars | etl/make_policies_catalog.py:58 | every character the collapse leaves is a blank or a character of its input |
| EtlCatalog.CollapseLower | etl/make_policies_catalog.py:58 | collapsing whitespace in a lower-case text leaves it lower-case |
| EtlCatalog.NormShape | etl/make_policies_catalog.py:57-58 | a normalised name has no whitespace at the ends, only single blanks inside, and is lower-case |
| EtlCatalog.NormIdempotent | etl/make_policies_catalog.py:57-58 | `_norm` is idempotent |
| EtlCatalog.AliasTargets | etl/make_policies_catalog.py:14-46 | the alias table's targets are exactly the nine data columns listed at lines 142-143, in the same order |
| EtlCatalog.NameTable | etl/make_policies_catalog.py:69-70 | each entry pairs a target with `{target} \| {_norm(v) for v in variants}` |
| EtlCatalog.FirstAliasFrom | etl/make_policies_catalog.py:69-73 | the index found is the first entry from the start point whose names contain the column, and none exactly when no entry does |
| EtlCatalog.MappedTargetSpec | etl/make_policies_catalog.py:68-73 | the inner loop settles on the target of the first entry whose names contain the column, and on nothing exactly when none does |
| EtlCatalog.StandardBySpec | etl/make_policies_catalog.py:66-74 | a column is renamed to the target of the first matching alias, an unmatched column keeps its name, and no other name is invented |
| EtlCatalog.FindTarget | etl/make_policies_catalog.py:68-73 | the inner loop with its `break` finds the first matching target |
| EtlCatalog.StandardName | etl/make_policies_catalog.py:67-74 | one pass of the outer loop gives `mapped if mapped else c` |
| EtlCatalog.StandardMapSpec | etl/make_policies_catalog.py:65-75 | the dict has a key for every column seen and nothing else, mapping each to its standard name |
| EtlCatalog.StandardizeColumns | etl/make_policies_catalog.py:60-75 | `_standardize_columns` returns the dict from every input column to its standard name |
| EtlCatalog.NewNames | etl/make_policies_catalog.py:121-122 | the renamed frame has one label per column, each the column's standard name |
| EtlCatalog.ReplaceRunsShape | etl/make_policies_catalog.py:136 | after replacing runs of unkept characters only kept characters and the filler remain, never two fillers in a row |
| EtlCatalog.SlugRunsShape | etl/make_policies_catalog.py:136 | `str.replace(r"[^a-z0-9]+", "_")` leaves only `[a-z0-9_]`, never `__`, and no whitespace |
| EtlCatalog.SlugShape | etl/make_policies_catalog.py:129-137 | a synthesised id holds only `[a-z0-9_]`, never `__`, and is its own `strip()` |
| EtlCatalog.Column | etl/make_policies_catalog.py:122-150 | `df[c]` has one cell per row |
| EtlCatalog.TextCol | etl/make_policies_catalog.py:139-150 | `astype(str)` converts each cell of a column |
| EtlCatalog.StripCol | etl/make_policies_catalog.py:150 | `astype(str).str.strip()` converts each cell of a column |
| EtlCatalog.SlugCol | etl/make_policies_catalog.py:129-137 | the slug chain converts each cell of a column |
| EtlCatalog.Fill | etl/make_policies_catalog.py:153-159 | assigning a scalar fills every row with it |
| EtlCatalog.StripColTwice | etl/make_policies_catalog.py:150 | stripping twice is stripping once |
| EtlCatalog.RowsOf | etl/make_policies_catalog.py:160 | `df[OUTPUT_COLS]` gives one row per index with exactly the output columns |
| EtlCatalog.LookUpStandard | etl/make_policies_catalog.py:121-122 | looking each column up in the built dict gives its standard name |
| EtlCatalog.RenamedColumns | etl/make_policies_catalog.py:121-122 | the labels after `df.rename(columns=_standardize_columns(df.columns))` |
| EtlCatalog.RenameColumns | etl/make_policies_catalog.py:122 | after renaming, each label holds the cells of the last source column renamed to it |
| EtlCatalog.StripColumns | etl/make_policies_catalog.py:148-150 | the stripping loop converts exactly the data columns present |
| EtlCatalog.FillColumns | etl/make_policies_catalog.py:157-159 | the loop adds a missing output column filled with `pd.NA` and leaves present ones alone |
| EtlCatalog.AddIdName | etl/make_policies_catalog.py:127-139 | the id is synthesised from the name when only the name exists, and the name copied from the id when only the id exists |
| EtlCatalog.NormalizeFrame | etl/make_policies_catalog.py:112-164 | `_normalize_frame`, step by step; a data column two source columns were renamed to raises `ValueError` or `AttributeError` |
| EtlCatalog.RenamedSpec | etl/make_policies_catalog.py:122 | renaming keeps exactly the new labels, and a label holds the cells of the last column renamed to it |
| EtlCatalog.RenamedData | etl/make_policies_catalog.py:122-145 | without a clash, a data column present after renaming holds its source cells |
| EtlCatalog.WithIdNameSpec | etl/make_policies_catalog.py:127-139 | the id and name columns after their steps, read off the renamed columns |
| EtlCatalog.AfterIdName | etl/make_policies_catalog.py:145-160 | the rest of the pipeline, read off the columns after the id and name steps |
| EtlCatalog.ShapedSource | etl/make_policies_catalog.py:153-154 | every row carries the file and the sheet name, `""` for none |
| EtlCatalog.ShapedPlain | etl/make_policies_catalog.py:145-160 | a data column other than id and name holds its stripped source cell, or `pd.NA` when absent |
| EtlCatalog.ShapedIdName | etl/make_policies_catalog.py:127-150 | the id and name cells of a row, read off the source row |
| EtlCatalog.ExpectedRows | etl/make_policies_catalog.py:145-160 | the rows before `dropna` have exactly the output columns, one per source row |
| EtlCatalog.ShapedRows | etl/make_policies_catalog.py:145-160 | the reshaped columns, read row by row, are the expected rows |
| EtlCatalog.NormalizedSpec | etl/make_policies_catalog.py:112-164 | an empty or absent sheet gives an empty frame with the output columns; a clash raises (`ValueError` exactly for a repeated id column without a name column); otherwise the output columns and the expected rows that have an id or a name |
| EtlCatalog.NormalizedRaises | etl/make_policies_catalog.py:122-139 | a clash raises with the error the clash determines |
| EtlCatalog.NormalizedReturns | etl/make_policies_catalog.py:117-164 | without a clash, the rows are the expected rows that have an id or a name |
| EtlCatalog.NameCopiesId | etl/make_policies_catalog.py:138-139 | a sheet without a name column gets the id's text as the name |
| EtlCatalog.IdFromName | etl/make_policies_catalog.py:127-137 | a sheet without an id column gets a slug of the name as its id |
| EtlCatalog.IdNameMissing | etl/make_policies_catalog.py:163 | the id and name cells are missing exactly when they have no source, or a missing source when missing cells are kept |
| EtlCatalog.NoIdNoNameNoRows | etl/make_policies_catalog.py:157-163 | a sheet with neither an id nor a name column contributes no rows |
| EtlCatalog.NaNText | etl/make_policies_catalog.py:150 | `str(nan)` is `"nan"`, unchanged by `strip()` |
| EtlCatalog.NaNRowText | etl/make_policies_catalog.py:139-150 | as written, a row whose id and name are NaN gets the id and name `"nan"` |
| EtlCatalog.AsWrittenNoDrop | etl/make_policies_catalog.py:150-163 | as written, every row survives `dropna` once an id or a name column exists |
| EtlCatalog.AsWrittenKeepsEmptyRows | etl/make_policies_catalog.py:150-163 | as written, `astype(str)` turns a missing id or name into `"nan"` before `dropna`: no row is dropped and an empty row is kept as `"nan"` |
| EtlCatalog.CorrectedDropsEmptyRows | etl/make_policies_catalog.py:162-163 | keeping missing cells missing, a row is kept exactly when its source id or name is present |
| EtlCatalog.ExpectedRowsAgree | etl/make_policies_catalog.py:150 | on a sheet without missing cells, keeping missing cells changes no row |
| EtlCatalog.CorrectedAgrees | etl/make_policies_catalog.py:150-163 | on a sheet without missing cells the corrected conversion agrees with the code as written |
| EtlCatalog.GatheredSpec | etl/make_policies_catalog.py:171-188 | gathering raises exactly when a sheet with data raises, with its error; otherwise it holds the normalised rows of every sheet with data, in order |
| EtlCatalog.NormalizerShape | etl/make_policies_catalog.py:112-164 | every frame returned has the output columns, each row exactly those; an error is `ValueError` or `AttributeError` |
| EtlCatalog.ByNameThenIdPreorder | etl/make_policies_catalog.py:201 | sorting by name then id with missing last is a total preorder |
| EtlCatalog.GatheredRaisesStays | etl/make_policies_catalog.py:183-188 | once a sheet raised, the walk stops with that error |
| EtlCatalog.GatheredStep | etl/make_policies_catalog.py:182-188 | a sheet without data adds nothing; one with data adds its frame or raises |
| EtlCatalog.GatherFrames | etl/make_policies_catalog.py:171-188 | the loop over the sheets normalises every sheet with data |
| EtlCatalog.NormalizeSheet | etl/make_policies_catalog.py:183-188 | one call of `_normalize_frame` with the sheet's file and sheet name |
| EtlCatalog.ConcatRows | etl/make_policies_catalog.py:193 | `pd.concat` holds the rows of every frame, in order |
| EtlCatalog.CollectPolicies | etl/make_policies_catalog.py:166-202 | `collect_policies` as written gives the catalog of its sheets under the `astype(str)` conversion |
| EtlCatalog.CollectPoliciesFixed | etl/make_policies_catalog.py:166-202 | with the corrected conversion that keeps missing cells missing, the catalog of its sheets |
| EtlCatalog.CollectWith | etl/make_policies_catalog.py:171-202 | the body of `collect_policies` under either conversion |
| EtlCatalog.SheetRowsShape | etl/make_policies_catalog.py:112-164 | every row a sheet contributes has exactly the output columns and an id or a name |
| EtlCatalog.CollectedOutcome | etl/make_policies_catalog.py:166-202 | the catalog raises exactly when a sheet with data raises, with the first such error; with no sheet with data it is empty; otherwise it has the output columns |
| EtlCatalog.CataloguedSpec | etl/make_policies_catalog.py:195-201 | after `drop_duplicates` and the sort: sorted by name then id, no key twice, a permutation of the first row of every key, every key represented |
| EtlCatalog.CataloguedStable | etl/make_policies_catalog.py:201 | `kind="mergesort"` is stable: rows with equal sort keys keep their first-occurrence order |
| EtlCatalog.CollectedFromSheets | etl/make_policies_catalog.py:190-193 | the concatenated rows are the sheets' rows; none when no frame was gathered |
| EtlCatalog.CollectedRows | etl/make_policies_catalog.py:190-202 | the catalog's rows come from the sheets in walk order, sorted, deduplicated by `(policy_id, policy_name)`, every key represented |
| EtlCatalog.CollectedRowShape | etl/make_policies_catalog.py:166-202 | each row of the catalog has exactly the output columns and an id or a name |
| EtlCommon.CollapseTokenChars | etl/common.py:56 | collapsing whitespace keeps a text inside `[a-z0-9_ ]` |
| EtlCommon.NormTokenShape | etl/common.py:55-56 | every token holds only `[a-z0-9_ ]`, with single blanks between words and none at the ends; `None` and `""` give `""` |
| EtlCommon.NormTokenFixed | etl/common.py:55-56 | a text already in token shape is its own token |
| EtlCommon.NormTokenIdempotent | etl/common.py:55-56 | `norm_token` is idempotent |
| EtlCommon.Renamed | etl/common.py:66 | `df.rename(columns=mapping)` keeps the number of columns |
| EtlCommon.LastMatch | etl/common.py:61-65 | the entry found wants the token |
| EtlCommon.LastMatchSpec | etl/common.py:61-65 | the last alias entry wanting a token is found, and none exactly when no entry wants it |
| EtlCommon.CurrentSpec | etl/common.py:60 | the token dict holds exactly the tokens of the columns, each mapped to the last column with that token |
| EtlCommon.MappingOfSpec | etl/common.py:59-65 | a column is in the mapping exactly when it is current for a wanted token, and then takes the last entry wanting it |
| EtlCommon.StepSpec | etl/common.py:62-65 | one entry's pass takes a column exactly when it is current for one of the entry's tokens |
| EtlCommon.RenameColumn | etl/common.py:58-66 | a column is renamed exactly when it is the last column with its token and some canonical name wants the token, and then takes the last such name; every other column keeps its name |
| EtlCommon.RenameUnmatched | etl/common.py:58-66 | a column whose token no entry wants keeps its name |
| EtlCommon.RenameShadowed | etl/common.py:60-66 | of two differently named columns with one token, the earlier keeps its name when the later is the last with that token |
| EtlCommon.CurrentIsLast | etl/common.py:60 | the token dict holds the name of the last column with a token |
| EtlCommon.RenameLaterWins | etl/common.py:61-65 | when several entries want a current column's token, the last of them names it |
| EtlCommon.LastMatchIs | etl/common.py:61-65 | the wanting entry with none after it is the last match |
| EtlCommon.AddCanon | etl/common.py:63-65 | the inner loop assigns the canonical name to every current column whose token is wanted |
| EtlCommon.RenameBy | etl/common.py:59-66 | the two loops give the renamed columns of the mapping they build |
| EtlCommon.RenameUsingAliases | etl/common.py:58-66 | `rename_using_aliases` on the frame's column names, with `norm_token` as the token |
| EtlDefesos.Strptime | etl/defesos_to_processed.py:40-44 | a parsed date is a real day of years 1 to 9999 |
| EtlDefesos.FirstParse | etl/defesos_to_processed.py:40-44 | the date of the first format that parses is a real day |
| EtlDefesos.NormDateMissing | etl/defesos_to_processed.py:30-39 | `None`, NaN and blank texts have no date |
| EtlDefesos.NormDateShape | etl/defesos_to_processed.py:28-50 | every date produced is the ISO text of a valid day, except that a `NaT` timestamp gives the text `"NaT"` |
| EtlDefesos.DayPieces | etl/defesos_to_processed.py:26-42 | the zero-padded fields of a valid day read back as its year, month and day |
| EtlDefesos.IsoDateChars | etl/defesos_to_processed.py:42 | the ISO text of a day is digits and `-` |
| EtlDefesos.StrptimeIso | etl/defesos_to_processed.py:26-42 | `%Y-%m-%d` reads the ISO text of a day back as that day |
| EtlDefesos.StrptimeBr | etl/defesos_to_processed.py:26-42 | `%d/%m/%Y` reads the Brazilian text of a day as that day |
| EtlDefesos.StrptimeNoDash | etl/defesos_to_processed.py:26-42 | `%Y-%m-%d` and `%d-%m-%Y` fail on a text without `-` |
| EtlDefesos.StrptimeOnePiece | etl/defesos_to_processed.py:42 | a text of digits and whitespace matches no format |
| EtlDefesos.NormDateIso | etl/defesos_to_processed.py:37-42 | an ISO day normalises to itself, whatever the fallback |
| EtlDefesos.NormDateBr | etl/defesos_to_processed.py:37-42 | a `dd/mm/yyyy` day normalises to its ISO text, whatever the fallback |
| EtlDefesos.NormTextParsed | etl/defesos_to_processed.py:37-44 | a stripped text that a format parses normalises to the ISO text of that day |
| EtlDefesos.FirstParseSecond | etl/defesos_to_processed.py:40-44 | when `%Y-%m-%d` fails and `%d/%m/%Y` succeeds, the second format decides |
| EtlDefesos.NormDateIdempotent | etl/defesos_to_processed.py:28-50 | a date produced from a timestamp or a text normalises to itself |
| EtlDefesos.NormDateFixed | etl/defesos_to_processed.py:30-36 | the corrected rule yields only ISO texts of valid days, never `"NaT"` |
| EtlDefesos.NormDateFixedMissing | etl/defesos_to_processed.py:30-36 | under the corrected rule every missing value, `NaT` included, has no date |
| EtlDefesos.SplitUfsShape | etl/defesos_to_processed.py:54-60 | the list is never empty; `[None]` exactly when the cell is missing or has no unit; every unit is non-blank, stripped and free of `,` and `;` |
| EtlDefesos.SomeTextsShape | etl/defesos_to_processed.py:59-60 | clean parts wrap into one present value each, never `[None]` |
| EtlDefesos.UfPartsClean | etl/defesos_to_processed.py:58-59 | the stripped non-empty pieces of a text cut at `[;,]` are clean |
| EtlDefesos.SplitUfsJoin | etl/defesos_to_processed.py:55-60 | units joined with `,` split back into themselves, as in the docstring |
| EtlDefesos.DateTextIso | etl/defesos_to_processed.py:84 | `norm_date` on texts only ever yields ISO days |
| EtlDefesos.ParseWindows | etl/defesos_to_processed.py:65-87 | the loop of `parse_windows` gives the pairs of the cell's chunks |
| EtlDefesos.ChunkLoop | etl/defesos_to_processed.py:77-86 | the chunks' pairs are appended in order |
| EtlDefesos.ChunkStep | etl/defesos_to_processed.py:78-86 | a blank chunk is skipped; otherwise its pair is kept when both ends normalise |
| EtlDefesos.ParseWindowsMissing | etl/defesos_to_processed.py:71-75 | a missing or blank cell has no windows |
| EtlDefesos.WindowsOfConcat | etl/defesos_to_processed.py:77-86 | chunks contribute in order, each at most one pair |
| EtlDefesos.WindowsOfIso | etl/defesos_to_processed.py:84-86 | with an ISO-valued normaliser both ends of every pair are ISO days |
| EtlDefesos.ParseWindowsIso | etl/defesos_to_processed.py:65-87 | both ends of every window `parse_windows` returns are ISO days |
| EtlDefesos.GroupsShape | etl/defesos_to_processed.py:63 | the intended split has one group more than separator words, no group holds a separator, and together they hold every other word in order |
| EtlDefesos.RangePartsFixed | etl/defesos_to_processed.py:63-81 | the intended range split, cutting only at separators that stand as words, always yields at least one piece |
| EtlDefesos.RangePartsFixedPair | etl/defesos_to_processed.py:63-81 | two words around a separator word split into the two words |
| EtlDefesos.IsoWord | etl/defesos_to_processed.py:63 | the ISO text of a day is one word with no separator word |
| EtlDefesos.ParseWindowsFixedIso | etl/defesos_to_processed.py:65-87 | with the intended split one ISO window yields exactly its two days |
| EtlDefesos.FirstParseNone | etl/defesos_to_processed.py:26-44 | a text with neither `-` nor `/` matches none of the four formats |
| EtlDefesos.RangePartsIso | etl/defesos_to_processed.py:63-83 | `RANGE_SPLIT` also cuts at the `-` inside an ISO day, so the two ends handed on are the first day's year and month |
| EtlDefesos.ParseWindowsAsWrittenIso | etl/defesos_to_processed.py:63-87 | as written, one ISO window yields whatever the normaliser makes of its first day's year and month |
| EtlDefesos.NoFallbackDigits | etl/defesos_to_processed.py:40-44 | with only the explicit formats a run of digits is no date |
| EtlDefesos.ParseWindowsAsWrittenStrict | etl/defesos_to_processed.py:66-86 | with the explicit formats, a window written with ISO days as in the docstring yields no pair at all |
| EtlDefesos.ParseWindowsFixedTwo | etl/defesos_to_processed.py:66-87 | the docstring's two ISO windows joined by `; ` yield both pairs, in order, with the intended split |
| EtlDefesos.TwoChunks | etl/defesos_to_processed.py:62-77 | two stripped chunks without `;` joined by `; ` split into those two chunks |
| EtlDefesos.KeyLeTotal | etl/defesos_to_processed.py:183-186 | the sort key order with missing values last is total |
| EtlDefesos.KeyLeTrans | etl/defesos_to_processed.py:183-186 | and transitive |
| EtlDefesos.KeepColumns | etl/defesos_to_processed.py:126-131 | `df[keep_cols]` keeps every row |
| EtlDefesos.PeriodsPrecedence | etl/defesos_to_processed.py:142-150 | the window pairs win when there are any, then the start and end dates when both are truthy, else no period; the label says which |
| EtlDefesos.ByRowKeyPreorder | etl/defesos_to_processed.py:183-186 | the row order is a total preorder, so the sort really sorts |
| EtlDefesos.RowsOfShape | etl/defesos_to_processed.py:152-179 | an input row's output comes unit by unit in `split_ufs` order and period by period within a unit, with at least one row |
| EtlDefesos.BlocksShape | etl/defesos_to_processed.py:154-179 | each unit's block has one row per period, or one dateless row |
| EtlDefesos.EmitUnit | etl/defesos_to_processed.py:154-179 | the inner loops for one unit emit a row per period, or one row without dates |
| EtlDefesos.ExplodeRow | etl/defesos_to_processed.py:135-179 | the row loop's body picks the periods and emits unit by unit |
| EtlDefesos.ExplodePeriodsAndUfs | etl/defesos_to_processed.py:119-187 | `explode_periods_and_ufs`: the row loop over the kept columns, then the sort when there are rows |
| EtlDefesos.ExplodeSpec | etl/defesos_to_processed.py:119-187 | the result is ordered by `(resource_common, gear_category, uf, start_date)` with missing last, is a permutation of the exploded rows, has at least one row per input row, and is empty exactly when the input is |
| EtlDefesos.RowsOfSameCells | etl/defesos_to_processed.py:126-140 | an input row's output depends only on its cells in the kept columns |
| EtlDefesos.KeepColumnsSame | etl/defesos_to_processed.py:126-131 | `df[keep_cols]` changes no output |
| EtlDefesos.ExplodeOrigin | etl/defesos_to_processed.py:133-179 | every output row was emitted for some input row |
| EtlDefesos.NaTNotIso | etl/defesos_to_processed.py:34 | `"NaT"` is not the text of any day |
| EtlDefesos.NaTRowAsWritten | etl/defesos_to_processed.py:32-34 | as written, a row with `NaT` start and end and no windows gets the period `("NaT", "NaT")` labelled `start_end` (the branch at lines 145-147 takes those truthy texts) |
| EtlDefesos.NaTRowFixed | etl/defesos_to_processed.py:145-165 | corrected, that row has no period and one dateless row per unit |
| EtlDefesos.DatelessBlocks | etl/defesos_to_processed.py:152-165 | without periods each unit has one row and no row has dates |
| EtlDefesos.PeriodsFixedIso | etl/defesos_to_processed.py:138-150 | with the corrected parsers both ends of every period are ISO days |
| EtlDefesos.UfBlockIso | etl/defesos_to_processed.py:154-179 | a unit's rows have ISO dates or none when its periods are ISO pairs |
| EtlDefesos.ExplodeFixedIso | etl/defesos_to_processed.py:119-187 | with the corrected parsers every start and end date of the result is missing or an ISO day |
| EtlDefesos.ByFinalKeyPreorder | etl/defesos_to_processed.py:269-272 | the final sort order is a total preorder |
| EtlDefesos.RunDefesosErrors | etl/defesos_to_processed.py:256-265 | `FileNotFoundError` exactly when neither source was read; `ValueError` exactly when the sources were read but yielded no rows, since an empty frame has none of the final columns; otherwise a table |
| EtlDefesos.RunDefesosResult | etl/defesos_to_processed.py:259-272 | the written table is sorted by the final key, holds no two rows `drop_duplicates` calls equal, takes every row from the combined sources cut to the final columns, keeps a representative of each, and is no longer than the combination |
| EtlPolicies.NormalizeNivelCases | etl/policies_to_processed.py:56-70 | a non-string or blank level is empty; otherwise the national keywords are checked first, then the state ones, then the regional ones, and anything else is capitalised |
| EtlPolicies.NormalizeNivelText | etl/policies_to_processed.py:59-70 | a text whose lower-cased strip is non-blank reads as the level of that strip |
| EtlPolicies.CapitalizeBack | etl/policies_to_processed.py:70 | a capitalised lower-case text lower-cases and strips back to itself |
| EtlPolicies.NacionalFixed | etl/policies_to_processed.py:63-64 | `Nacional` normalises to itself |
| EtlPolicies.EstadualFixed | etl/policies_to_processed.py:65-66 | `Estadual` normalises to itself |
| EtlPolicies.RegionalFixed | etl/policies_to_processed.py:67-68 | `Regional` normalises to itself |
| EtlPolicies.CapitalizedFixed | etl/policies_to_processed.py:69-70 | the capitalised fallback level normalises to itself |
| EtlPolicies.NormalizeNivelIdempotent | etl/policies_to_processed.py:56-70 | normalising a normalised level changes nothing |
| EtlPolicies.Cut | etl/policies_to_processed.py:76-78 | one step of the phrase loop gives a prefix of the text |
| EtlPolicies.CutAll | etl/policies_to_processed.py:75-78 | the phrase loop gives a prefix of the text |
| EtlPolicies.FirstChunk | etl/policies_to_processed.py:72-81 | `_first_chunk`: the phrase loop, then the first separator and the strip |
| EtlPolicies.CutRemoves | etl/policies_to_processed.py:76-78 | after a cut the phrase no longer occurs, whatever the case |
| EtlPolicies.CutAllRemoves | etl/policies_to_processed.py:75-78 | after the loop none of the phrases it went through occurs |
| EtlPolicies.CutAllNone | etl/policies_to_processed.py:75-78 | the loop changes nothing when no phrase occurs |
| EtlPolicies.FirstChunkSpec | etl/policies_to_processed.py:72-81 | the first chunk is a stripped infix of the text, holds none of `;`, `\|` and `,`, and no connective phrase occurs in it, whatever the case |
| EtlPolicies.FirstChunkClean | etl/policies_to_processed.py:72-81 | a text with no separator and no connective phrase is only stripped |
| EtlPolicies.CapsRun | etl/policies_to_processed.py:89-93 | the run of `A`-`Z` found at a position is all capitals, inside the text, and maximal |
| EtlPolicies.CompoundFrom | etl/policies_to_processed.py:89 | the greedy `(?:/[A-Z]{2,})+` repetitions end after the first run and within the text |
| EtlPolicies.CompoundAt | etl/policies_to_processed.py:89 | a compound match at a position ends more than two characters on, within the text |
| EtlPolicies.SimpleAt | etl/policies_to_processed.py:93 | a simple match at a position spans at least two characters within the text |
| EtlPolicies.SearchFrom | etl/policies_to_processed.py:89-93 | `re.search` returns the leftmost position at which the pattern matches, with that match's end, and nothing exactly when it matches nowhere |
| EtlPolicies.CompoundAtSpec | etl/policies_to_processed.py:89 | what the compound pattern returns at a position is a match, and no match there is longer |
| EtlPolicies.SimpleAtSpec | etl/policies_to_processed.py:93 | the simple pattern returns exactly the match at a position |
| EtlPolicies.CompoundSearchSpec | etl/policies_to_processed.py:89 | the compound search finds the leftmost, longest match, if there is one |
| EtlPolicies.SimpleSearchSpec | etl/policies_to_processed.py:93 | the simple search finds the leftmost match, if there is one |
| EtlPolicies.FirstAcronymSpec | etl/policies_to_processed.py:83-96 | `_first_acronym` returns the leftmost, longest compound acronym when there is one, else the leftmost simple one, else nothing; what it returns is an acronym occurring in the text |
| EtlPolicies.CompoundFixed | etl/policies_to_processed.py:89-91 | a compound acronym is its own first acronym |
| EtlPolicies.SimpleFixed | etl/policies_to_processed.py:93-95 | a plain run of capitals is its own first acronym |
| EtlPolicies.AcronymFixed | etl/policies_to_processed.py:83-96 | an acronym is its own first acronym |
| EtlPolicies.MapLookupSpec | etl/policies_to_processed.py:122-125 | the lookup finds an entry exactly when some full name occurs in the key, and then the first such entry |
| EtlPolicies.DashesOfAcronym | etl/policies_to_processed.py:118 | an acronym holds no dash, so the dash replacement keeps it |
| EtlPolicies.AcronymMapValues | etl/policies_to_processed.py:34-48 | every acronym of the map is an acronym |
| EtlPolicies.TitleNoCapsPair | etl/policies_to_processed.py:128 | `str.title` never leaves two capitals side by side |
| EtlPolicies.ResponsavelOfAcronym | etl/policies_to_processed.py:98-119 | an acronym is a managing body that normalises to itself |
| EtlPolicies.TitleNotAcronym | etl/policies_to_processed.py:128 | a title-cased text never reads as an acronym |
| EtlPolicies.FallbackShape | etl/policies_to_processed.py:128 | the title-case fallback has single blanks and no padding, and never reads as an acronym |
| EtlPolicies.ResponsavelOfChunkCases | etl/policies_to_processed.py:114-128 | the chunk's first acronym when there is one; else the acronym of the first full name it mentions, in map order; else the chunk collapsed and title-cased, which is no acronym |
| EtlPolicies.NormalizeResponsavelCases | etl/policies_to_processed.py:98-128 | a non-string or blank body is empty; otherwise steps 2 to 4 run on its first chunk |
| EtlPolicies.NormalizeResponsavelIdempotent | etl/policies_to_processed.py:98-128 | a body normalised to an acronym normalises to the same acronym again |
| EtlPolicies.SedemeNeverMatches | etl/policies_to_processed.py:122-125 | as written the SEDEME/PA entry (line 46) never matches: its full name holds a comma and the first chunk is cut at every comma (line 80) |
| EtlPolicies.ChunkFixedAgrees | etl/policies_to_processed.py:121-125 | where the written lookup gives an acronym, the corrected one gives the same |
| EtlPolicies.ChunkFixedSedeme | etl/policies_to_processed.py:121-125 | with the correction, a text naming the SEDEME/PA secretariat (line 46), with no earlier full name, gets that acronym |
| EtlPolicies.NormalizeResponsavelFixedSpec | etl/policies_to_processed.py:98-128 | the correction changes only the title-case fallback, and the SEDEME/PA name now reaches its acronym |
| EtlPolicies.CellText | etl/policies_to_processed.py:195-197 | `str(v or "").strip()`, also used at lines 260-261, is stripped, empty for a falsy cell, and the stripped text for a string |
| EtlPolicies.CellTextFixed | etl/policies_to_processed.py:195-197 | the intended reading of the cell text here and at lines 260-261: a NaN cell is blank, every other cell as before |
| EtlPolicies.Lines | etl/policies_to_processed.py:194-203 | the kept lines, here and in the parameter summary at lines 259-263, are at most one per row |
| EtlPolicies.LinesArePresentResults | etl/policies_to_processed.py:194-203 | wrapping the lines gives exactly the present results, in order |
| EtlPolicies.FirstEight | etl/policies_to_processed.py:204 | `parts[:8]`, and `vals[:8]` at line 264, is the first eight lines, or all when there are fewer |
| EtlPolicies.ReqText | etl/policies_to_processed.py:195-198 | the requirement's text is its stripped name when there is one, otherwise its stripped description |
| EtlPolicies.SummarizeRequirements | etl/policies_to_processed.py:192-204 | the loop gives the requirements summary of the rows |
| EtlPolicies.DashLineBlank | etl/policies_to_processed.py:198-200 | a line whose text is only dashes and blanks is skipped |
| EtlPolicies.DashLineKept | etl/policies_to_processed.py:198-200 | a line whose text holds any other non-blank character is kept |
| EtlPolicies.ReqLineSpec | etl/policies_to_processed.py:195-203 | a requirement gets no line when its text is only dashes and blanks, a line when it holds another non-blank character, and the line is `- `, the text and ` (obrigatório)` exactly for a y/yes/sim/true/1 flag |
| EtlPolicies.RequirementsSummarySpec | etl/policies_to_processed.py:192-204 | the summary joins at most eight requirement lines of the rows, in row order |
| EtlPolicies.ReqLineNoText | etl/policies_to_processed.py:198-200 | a requirement with neither a name nor a description gets no line |
| EtlPolicies.NamedRequirementLine | etl/policies_to_processed.py:195-203 | a requirement whose stripped name starts with neither a dash nor a blank gets a line starting with its name |
| EtlPolicies.ReqLineSameCells | etl/policies_to_processed.py:195-203 | two cell readings that agree on a row's three cells give it the same line |
| EtlPolicies.NanRequirementListed | etl/policies_to_processed.py:195-198 | as written, a requirement whose name cell is NaN is listed as `- nan` |
| EtlPolicies.NanRequirementSkipped | etl/policies_to_processed.py:195-200 | reading NaN as blank, a requirement whose name and description are NaN gets no line, and rows without NaN are summarised as before |
| EtlPolicies.FinancialBlurb | etl/policies_to_processed.py:257-264 | the loop gives the financial summary of the rows |
| EtlPolicies.BlurbLineSpec | etl/policies_to_processed.py:260-263 | a parameter gets a line exactly when its name or value is non-empty; the line starts with the bullet and is `• name: value`, or `• name` without a value, when the ends are not colons or blanks |
| EtlPolicies.FinancialSummarySpec | etl/policies_to_processed.py:257-264 | the blurb joins at most eight parameter lines of the rows, in row order |
| EtlPolicies.NanValueShown | etl/policies_to_processed.py:261-263 | as written, a named parameter whose value cell is NaN is shown with the value `nan` |
| EtlPolicies.NanValueDropped | etl/policies_to_processed.py:261-263 | reading NaN as blank, that parameter is shown by name alone |
| EtlPolicies.BlurbNameOnly | etl/policies_to_processed.py:263 | a parameter whose value is blank is shown by name alone |
| EtlPolicies.TipNonEmpty | etl/policies_to_processed.py:295-304 | every tip is non-empty |
| EtlPolicies.JoinNonEmpty | etl/policies_to_processed.py:305 | joining non-empty parts gives `""` only for no parts |
| EtlPolicies.HowtoTipsSpec | etl/policies_to_processed.py:293-305 | the tips are exactly those of the present fields, in the fixed field order |
| EtlPolicies.HowtoTipsNonEmpty | etl/policies_to_processed.py:295-304 | every collected tip is non-empty |
| EtlPolicies.HowtoTipsNone | etl/policies_to_processed.py:295-304 | no tip is collected exactly when no field is present |
| EtlPolicies.BuildHowtoEmpty | etl/policies_to_processed.py:293-305 | `build_howto` is empty exactly when none of the five fields is a non-blank string |
| EtlUcs.SuffixedInjective | etl/ucs_to_processed.py:102-104 | a `name_k` label determines its base name and its number |
| EtlUcs.RenamedLike | etl/ucs_to_processed.py:25-32 | renaming keeps one label per column |
| EtlUcs.RenamedLikeIdempotent | etl/ucs_to_processed.py:25-32 | renaming a second time to the same canonical name changes nothing, since the canonical name's own token is among the wanted ones |
| EtlUcs.LikeMapping | etl/ucs_to_processed.py:26-31 | the rename map holds exactly the columns whose normalised token is wanted, each mapped to the canonical name |
| EtlUcs.Table.constructor | etl/ucs_to_processed.py:25 | a table holds the given column labels |
| EtlUcs.Table.RenameLike | etl/ucs_to_processed.py:14-32 | every column whose `_norm` token is the canonical name's or one of its aliases' is renamed to it in place; the rest keep their labels |
| EtlUcs.Table.RenameLikeBy | etl/ucs_to_processed.py:25-32 | the in-place rename for a given wanted set and normalisation |
| EtlUcs.Table.ForceUnique | etl/ucs_to_processed.py:124-140 | returns a fresh table with the forced-unique labels and leaves this one as it was |
| EtlUcs.ListDuplicatedSpec | etl/ucs_to_processed.py:119-122 | every occurrence of a repeated label is listed, in column order, and a label that occurs once is not |
| EtlUcs.ForceUniqueOf | etl/ucs_to_processed.py:124-140 | one label per column |
| EtlUcs.ForceUniqueColumns | etl/ucs_to_processed.py:124-140 | the counting loop computes the forced-unique labels: a first occurrence is kept and the k-th repeat becomes `name_k` |
| EtlUcs.CountsStep | etl/ucs_to_processed.py:130-137 | the count of a label before a column is how often it was seen, and it goes up by one |
| EtlUcs.ForceUniqueDistinct | etl/ucs_to_processed.py:124-140 | when no column is already labelled like a suffixed repeat, the forced labels are all different |
| EtlUcs.SeenGrows | etl/ucs_to_processed.py:130-137 | a later column with the same label has seen more of it, and a first occurrence none |
| EtlUcs.ForceUniqueClash | etl/ucs_to_processed.py:124-140 | labels `x, x, x_2` come out as `x, x_2, x_2`, so the promised uniqueness fails |
| EtlUcs.NextUnused | etl/ucs_to_processed.py:102-104 | the first number from `k` on whose suffixed label is not yet used |
| EtlUcs.ForceUniqueFixed | etl/ucs_to_processed.py:124-140 | the intended renaming skips every suffixed label already present: the labels are unique, first occurrences keep theirs, and a repeat takes some `name_k` with `k >= 2` that is not an original label |
| EtlUcs.NextFree | etl/ucs_to_processed.py:102-104 | the `while` loop ends at the first number from `k` on whose suffixed label is not a column label |
| EtlUcs.Gen | etl/ucs_to_processed.py:99-106 | the counter after `t` renamed members of a group is past `t`, and its suffixed label is free |
| EtlUcs.GenGrows | etl/ucs_to_processed.py:99-106 | later members of a group get larger numbers |
| EtlUcs.PositionsSpec | etl/ucs_to_processed.py:78-82 | `seen[n]` lists every column labelled `n`, the t-th of them preceded by t others |
| EtlUcs.FirstIndex | etl/ucs_to_processed.py:85-88 | the position of the first column with a label |
| EtlUcs.FirstOnce | etl/ucs_to_processed.py:78-82 | two first occurrences of a label are the same column |
| EtlUcs.GroupSameIff | etl/ucs_to_processed.py:89-97 | a group counts as equal exactly when every member's content equals the first member's |
| EtlUcs.Keep | etl/ucs_to_processed.py:110-113 | selecting positions never lengthens the row |
| EtlUcs.DedupeColumns | etl/ucs_to_processed.py:66-117 | the two loops and the final selection compute `dedupe_columns` on labels and contents |
| EtlUcs.SeenGroups | etl/ucs_to_processed.py:78-82 | the first loop lists each label once, in first-occurrence order, with all of its positions |
| EtlUcs.PositionsOther | etl/ucs_to_processed.py:78-82 | a column with a different label leaves a label's positions as they were |
| EtlUcs.SeenNew | etl/ucs_to_processed.py:80-81 | a first occurrence starts a new group |
| EtlUcs.SeenAgain | etl/ucs_to_processed.py:82 | a repeated label adds its position at the end of its group |
| EtlUcs.DedupeGroup | etl/ucs_to_processed.py:85-107 | one group of the second loop: drop the later members of an all-equal group, or rename them |
| EtlUcs.RenameGroup | etl/ucs_to_processed.py:99-106 | a group of differing columns writes the last free suffix it reaches under the group's shared label |
| EtlUcs.FirstFree | etl/ucs_to_processed.py:102-104 | the inner `while` stops at the first free suffix |
| EtlUcs.KeepColumns | etl/ucs_to_processed.py:110-113 | `iloc[:, keep_idxs]` keeps labels and contents of the same positions |
| EtlUcs.KeepRenamed | etl/ucs_to_processed.py:110-115 | renaming by label and selecting positions commute |
| EtlUcs.DedupeKeeps | etl/ucs_to_processed.py:85-117 | a column is dropped exactly when it is a later member of an all-equal group; every first occurrence is kept with its content, and in an all-equal group with its label |
| EtlUcs.DedupeNameAt | etl/ucs_to_processed.py:110-117 | a kept column carries its label through the rename map |
| EtlUcs.DedupeUntouched | etl/ucs_to_processed.py:66-117 | a label that occurs once keeps its column, label and content |
| EtlUcs.DedupeClash | etl/ucs_to_processed.py:99-117 | two `x` columns with different contents both come out as `x_2`, since the rename map is keyed by the shared label |
| EtlUcs.FixedNames | etl/ucs_to_processed.py:99-107 | the intended labels, one per column |
| EtlUcs.SuffixedApart | etl/ucs_to_processed.py:102-104 | suffixed labels with different bases or numbers differ |
| EtlUcs.DedupeFixedUnique | etl/ucs_to_processed.py:66-117 | renaming by position gives unique labels, as the doc-comment promises, and first occurrences keep label and content |
| EtlUcs.DedupeFixedFresh | etl/ucs_to_processed.py:99-107 | a renamed column stays, and its new label is not an original label |
| EtlShapefile.LastDot | etl/ibge_from_shapefile.py:23 | the position of the last dot of a name, or nothing when it has none |
| EtlShapefile.Suffix | etl/ibge_from_shapefile.py:23 | a path's suffix runs from its last dot to the end, and is empty exactly when the last dot is the first or the last character or there is none |
| EtlShapefile.Prio | etl/ibge_from_shapefile.py:32 | only .shp, .gpkg and .geojson get a priority above zero, at most 3 |
| EtlShapefile.ByRankPreorder | etl/ibge_from_shapefile.py:31-34 | ranking by name length and then suffix priority is a total preorder |
| EtlShapefile.Find | etl/ibge_from_shapefile.py:15-34 | nothing exactly when no file is a candidate (a file with a valid suffix whose lower-cased name holds a pattern); otherwise a candidate that no other beats, and the first of its rank in walk order |
| EtlShapefile.NoCandidates | etl/ibge_from_shapefile.py:28-29 | an empty candidate list means no walked file qualifies |
| EtlShapefile.HeadIsFirstBest | etl/ibge_from_shapefile.py:30-34 | the head of the reversed sort is a candidate, unbeaten, and the first of its rank |
| EtlShapefile.HeadBest | etl/ibge_from_shapefile.py:34 | the head of the reversed sort ranks at least as high as every candidate |
| EtlShapefile.HeadFirst | etl/ibge_from_shapefile.py:34 | since the sort is stable, the head is the first candidate of its rank |
| EtlShapefile.LocateInputs | etl/ibge_from_shapefile.py:47-58 | FileNotFoundError exactly when the state lookup or the municipality lookup finds nothing; otherwise both files are the best candidates for their patterns |
| EtlShapefile.LowerIndexKey | etl/ibge_from_shapefile.py:68 | the lookup holds every lower-cased column name, mapped to the last column with that lower-cased name |
| EtlShapefile.LastColumnWins | etl/ibge_from_shapefile.py:68 | a later column overwrites an earlier one with the same lower-cased name |
| EtlShapefile.PresentSpec | etl/ibge_from_shapefile.py:67-72 | nothing exactly when no candidate matches a column case-insensitively; otherwise the answer is chosen for some candidate |
| EtlShapefile.FirstPresent | etl/ibge_from_shapefile.py:67-72 | the loop returns the column for the first candidate some column matches case-insensitively, or nothing |
| EtlShapefile.PresentNamed | etl/ibge_from_shapefile.py:78-97 | a found column name is non-empty, so the truthiness test fails exactly when nothing was found |
| EtlShapefile.PresentOther | etl/ibge_from_shapefile.py:100-103 | adding a column whose name no candidate can match changes no lookup |
| EtlShapefile.Numbering | etl/ibge_from_shapefile.py:83-100 | the temporary id column holds 1..n |
| EtlShapefile.ColumnNamesNonEmpty | etl/ibge_from_shapefile.py:74-103 | every candidate column name is non-empty, and no state fallback name can match the temporary id column |
| EtlShapefile.ResolveUfColumns | etl/ibge_from_shapefile.py:74-84 | ValueError exactly when no sigla column is found; the name column falls back to the sigla column, and a missing id column becomes uf_id_tmp holding 1..n |
| EtlShapefile.ResolveUfWith | etl/ibge_from_shapefile.py:78-84 | the state-layer resolution holds for any non-empty candidate lists |
| EtlShapefile.FoundInColumns | etl/ibge_from_shapefile.py:67-72 | a lookup finds something exactly when some candidate matches, and what it finds is one of the layer's columns |
| EtlShapefile.ResolveMunColumns | etl/ibge_from_shapefile.py:93-105 | ValueError exactly when no name column is found, or neither state lookup finds a column; a missing id column becomes mun_id_tmp holding 1..n |
| EtlShapefile.ResolveMunWith | etl/ibge_from_shapefile.py:97-105 | the municipality-layer resolution holds for any non-empty candidate lists |
| EtlShapefile.StateColumn | etl/ibge_from_shapefile.py:102-105 | the state column is missing exactly when neither lookup finds one, and the fallback lookup is not changed by the temporary id column |
| EtlShapefile.FallbackIgnoresTemp | etl/ibge_from_shapefile.py:100-103 | the temporary id column never answers the fallback state lookup |
| Geo.NormalizeTextIdempotent | app/services/geo.py:10-13 | a normalised text is stripped, and normalising it a second time changes nothing |
| Geo.NormalizeStripped | app/services/geo.py:13 | stripping and lower-casing gives a stripped text that the same step leaves alone |
| Geo.LowerIndexKeys | app/services/geo.py:20 | a lower-cased name is a key exactly when some column lower-cases to it |
| Geo.LowerIndexLast | app/services/geo.py:20 | a key maps to the last column that lower-cases to it |
| Geo.LowerIndexValue | app/services/geo.py:20 | the column a key maps to is one of the frame's columns and lower-cases to the key |
| Geo.FirstPair | app/services/geo.py:21-23 | the first candidate pair, from a given position on, whose two names are both keys, or nothing when none is |
| Geo.GuessLatLonColsFinds | app/services/geo.py:15-24 | on a non-empty frame both guesses are empty exactly when no candidate pair is present; otherwise they are frame columns that lower-case to a present candidate pair |
| Geo.GuessLatLonColsEmpty | app/services/geo.py:17-18 | a missing or empty frame gives no guess |
| Geo.GuessExample | app/services/geo.py:19-23 | upper-case `LAT` and `Lon` columns are found and returned under their own names |
| Frames.WhereSelects | app/services/uc_catalog.py:27-32 | a boolean selection keeps the columns, keeps the rows in order, holds exactly the rows the mask accepts, and keeps the frame well formed |
| Frames.WhereWhere | app/services/uc_catalog.py:27-30 | two successive selections are one selection by both masks |
| Frames.WhereThree | app/services/uc_catalog.py:27-32 | three successive selections are one selection by all three masks |
| Frames.WhereFour | app/services/defeso_calendar.py:37-46 | four successive selections are one selection by all four masks |
| Frames.WhereIf | app/services/uc_catalog.py:27-28 | keeping the view unless a condition holds is one selection by the conditional mask |
| UcCatalog.FilterUcsEmpty | app/services/uc_catalog.py:24-25 | a missing or empty frame comes back unchanged |
| UcCatalog.FilterUcsMasks | app/services/uc_catalog.py:26-33 | the state filter compares upper-cased texts, the sphere filter casefolded texts and the category filter upper-cased texts, each applied only when its argument is given and its column exists |
| UcCatalog.FilterUcsSelects | app/services/uc_catalog.py:22-33 | on a non-empty frame the result is one selection by the reference predicate |
| UcCatalog.FilterUcsRows | app/services/uc_catalog.py:22-33 | the result keeps the columns and the row order, and holds a row exactly when the input holds it and every applicable filter accepts it |
| UcCatalog.FilterUcsNoArguments | app/services/uc_catalog.py:22-33 | with no argument the frame comes back unchanged |
| RegionModel.UfField | app/models/region.py:14-27 | the state code is accepted exactly when it is given, not None, and at least two characters long once stripped, and it is then exactly two characters |
| RegionModel.MakeRegionAccepts | app/models/region.py:12-35 | a region is built exactly when the state code is acceptable and the IBGE codes are text or None; a code shorter than two characters is rejected on the code field |
| RegionModel.MakeRegionFields | app/models/region.py:21-35 | an accepted code is the first two characters of the stripped text, upper-cased, and the town is stripped and non-blank |
| RegionModel.UfExample | tests/test_models.py:27-29 | `" pa "` becomes `"PA"` |
| PyValue.Or | app/models/user_profile.py:34 | Python's `or` gives its left operand when that is truthy and its right operand otherwise |
| PyValue.DictGet | app/models/user_profile.py:43 | `dict.get` finds a value exactly when some entry has the key |
| PyValue.FloatOf | app/models/user_profile.py:60 | `float` fails on None and containers, and reads integers and booleans as their numbers |
| PyValue.FloatOfIntText | app/models/user_profile.py:60 | the text of an integer reads back as that number |
| PoliciesEngine.EvaluateRequirementsDefaults | app/services/policies_engine.py:9-15 | the matcher sees the empty text and empty dicts in place of missing arguments, and a list it leaves out comes back empty |
| PoliciesEngine.Verdicts | app/services/policies_engine.py:32-33 | one verdict per row, carrying the row's position |
| PoliciesEngine.BatchEvaluatePolicies | app/services/policies_engine.py:22-36 | the loop computes the two lists of the batch evaluation |
| PoliciesEngine.ClassifyRows | app/services/policies_engine.py:32-35 | the row loop appends each verdict to the list it belongs to, so each list is the in-order selection of its verdicts |
| PoliciesEngine.ClassifyStep | app/services/policies_engine.py:34-35 | one more row appends its verdict to exactly the list it belongs to |
| PoliciesEngine.BatchPartition | app/services/policies_engine.py:29-35 | on a frame with the access column, a row is nearly eligible exactly when it misses something, eligible exactly when it misses nothing and meets something, and never both |
| PoliciesEngine.BatchOrdered | app/services/policies_engine.py:28-36 | the two lists are disjoint and each keeps the row order |
| PoliciesEngine.BatchNothing | app/services/policies_engine.py:29-30 | a missing or empty frame, or one without the access column, gives two empty lists |
| PolicyModel.ToList | app/models/policy.py:15-26 | rewriting the separators to a pipe one after the other and splitting there is the one-pass split at all separators |
| PolicyModel.ToListPipe | app/models/policy.py:24-26 | two clean items around a pipe are kept apart |
| PolicyModel.ToListExample | tests/test_models.py:11-18 | the test's axes cell gives both axes |
| PolicyModel.LevelPrecedence | app/models/policy.py:52-59 | "federal" anywhere wins over every other keyword, and "estado" or "estadual" wins over "municip" unless "federal" occurs too |
| PolicyModel.BlankLevelIsOutro | app/models/policy.py:50-59 | a blank that is not the empty string names the level Outro |
| PolicyModel.NoKeywordInEmpty | app/models/policy.py:57-59 | a text without keywords names the level Outro |
| PolicyModel.LevelRoundTrip | app/models/policy.py:49-59 | the displayed value of every level (lines 8-12, shown at line 86) reads back as that level |
| PolicyModel.LevelText | app/models/policy.py:52 | a stripped, non-empty text names the level of its lower-cased form |
| PolicyModel.FederalReads | app/models/policy.py:9-53 | "Federal" reads as Federal |
| PolicyModel.EstadualReads | app/models/policy.py:10-55 | "Estadual" reads as Estadual |
| PolicyModel.MunicipalReads | app/models/policy.py:57 | "Municipal" (line 11) reads as Municipal |
| PolicyModel.OutroReads | app/models/policy.py:59 | "Outro" (line 12) reads as Outro |
| PolicyModel.MunicipalWords | app/models/policy.py:53-57 | no earlier keyword occurs in "municipal" |
| PolicyModel.FromRowAccepts | app/models/policy.py:35-79 | a row is accepted exactly when the title is text and every free-text cell is text or None |
| PolicyModel.FromRowFields | app/models/policy.py:37-79 | an accepted row keeps its title, its level is the validator's reading of the level cell, its axes are clean items and its link, when present, is stripped and non-blank |
| PolicyModel.DisplayKeysInOrder | app/models/policy.py:81-92 | the display has its eight keys in order |
| PolicyModel.DisplayReadsBack | app/models/policy.py:47-92 | the displayed level reads back as the policy's level, and the displayed axes split back into the axes when no axis holds a separator |
| PolicyModel.DisplayCells | app/models/policy.py:86-89 | the level cell shows the level's value and the axes cell joins the axes with commas |
| PolicyModel.FromRowAxes | app/models/policy.py:43-64 | an accepted row's axes are the list reading of its axes cell |
| PolicyModel.FromRowDisplayReadsBack | app/models/policy.py:61-89 | axes read from a text cell are shown back unchanged |
| RequirementModel.ParseType | app/models/requirement.py:8-15 | a parsed type has exactly the given value |
| RequirementModel.ParseTypeValue | app/models/requirement.py:8-15 | every type is found again from its value |
| RequirementModel.ParseTypeNone | app/models/requirement.py:8-15 | only the six values name a type |
| RequirementModel.Listify | app/models/requirement.py:41-53 | rewriting the separators one after the other and splitting at the pipe is the one-pass split at all of them; None is the empty list and a list keeps its stripped non-blank items |
| RequirementModel.ListifySemicolon | app/models/requirement.py:51-53 | two clean tokens around a semicolon are kept apart |
| RequirementModel.ListifyExample | tests/test_models.py:32-35 | the test's trigger text gives both tokens |
| RequirementModel.ListifyKeepsBullet | app/models/requirement.py:51 | unlike the policy's list, a bullet does not cut a requirement's token list |
| RequirementModel.Identifier | app/models/requirement.py:25-39 | an identifier is accepted exactly when present and non-blank once stripped, and is then the stripped text |
| RequirementModel.TypeField | app/models/requirement.py:28 | the type defaults to doc, and an accepted type was given as its own value |
| RequirementModel.NegateField | app/models/requirement.py:30 | the flag defaults to False, a bool stands for itself, and True is only read from a given value |
| RequirementModel.LaxTextsDisjoint | app/models/requirement.py:30 | no text reads both as true and as false |
| RequirementModel.NegateFieldAccepts | app/models/requirement.py:30 | the flag is accepted exactly for a bool, 0, 1 and the lax words in any letter case, and each word reads as the side it belongs to |
| RequirementModel.NegateFieldWords | app/models/requirement.py:30 | "Yes" reads as true and "OFF" as false |
| RequirementModel.MakeRequirement | app/models/requirement.py:18-23 | an accepted requirement keeps the undeclared arguments as extras |
| RequirementModel.MakeRequirementAccepts | app/models/requirement.py:25-53 | the input is accepted exactly when the three identifiers are given and non-blank, the type names a member, the flag is acceptable and the notes are text or None |
| RequirementModel.MakeRequirementBlankCode | app/models/requirement.py:25-39 | a missing or blank code is rejected, naming the code field |
| RequirementModel.MakeRequirementFields | app/models/requirement.py:33-53 | an accepted requirement holds the stripped identifiers, and its tokens are clean |
| RequirementModel.MakeRequirementExtras | app/models/requirement.py:23 | the extras are exactly the undeclared arguments, unchanged |
| RequirementModel.ExtrasKeep | app/models/requirement.py:23 | the extras hold exactly the undeclared arguments |
| RequirementModel.MakeRequirementDefaults | app/models/requirement.py:28-31 | absent optional fields give type doc, no tokens, no negation and no notes |
| UserProfileModel.MakeProfileValid | app/models/user_profile.py:13-34 | validation rejects only a non-text IBGE code, and what it builds satisfies the profile's invariant |
| UserProfileModel.MakeProfileFields | app/models/user_profile.py:15-34 | the state code is the upper-cased first two characters of the stripped text, the town and gender are stripped and non-blank, and every undeclared argument is kept as an extra |
| UserProfileModel.LookupIsAttribute | app/models/user_profile.py:43 | on a valid profile both branches of the lookup read the attribute |
| UserProfileModel.GetBoolCases | app/models/user_profile.py:42-53 | None for a missing value, a bool unchanged, otherwise True exactly for a yes-word and False exactly for a no-word once stripped and lower-cased |
| UserProfileModel.GetNumberCases | app/models/user_profile.py:55-62 | a missing value, the empty text and a container give no number; an integer or bool gives its value and a text its parse |
| UserProfileModel.GetText | app/models/user_profile.py:64-69 | nothing exactly for a missing or blank value, otherwise the stripped text |
| UserProfileModel.GetTextIdempotent | app/models/user_profile.py:28-69 | a text read through get_text is stored back unchanged |
| UserProfileModel.AsDictShowsAttributes | app/models/user_profile.py:38-40 | the dictionary shows every declared field and every extra under its key |
| UserProfileModel.ExtraBoolReadsBack | app/models/user_profile.py:42-47 | an undeclared bool answer reads back unchanged |
| UserProfileModel.EstadoExample | tests/test_models.py:20-23 | `"pa"` becomes `"PA"` |
| UserProfileModel.CpfOkIsExtra | tests/test_models.py:21-25 | the test's answer key is not a declared field |
| ModelFields.OptionalText | app/models/user_profile.py:17 | a text-or-None field without a validator of its own accepts exactly text and None, and keeps the text |
| ModelFields.OptText | app/models/policy.py:81-92 | a dict shows a missing field as None and a present one as its text |
| ModelFields.StripOrNone | app/models/user_profile.py:28-34 | None passes; anything else is shown as text and stripped, and a blank becomes None; what comes out is a non-blank stripped part of the shown text |
| ModelFields.StripOrNoneIdempotent | app/models/user_profile.py:28-34 | validating the validator's own output changes nothing |
| ModelFields.StripOrNonePadded | app/models/requirement.py:33-39 | surrounding blanks make no difference to the validator |
| ModelFields.NormUf | app/models/user_profile.py:20-26 | the state-code validator gives None exactly for None |
| ModelFields.UfCode | app/models/user_profile.py:25-26 | the code is the stripped text's first two characters, upper-cased, or the whole stripped text when it is shorter |
| ModelFields.UfCodeUpper | app/models/user_profile.py:25 | the code holds no lower-case letter, so upper-casing it again leaves it unchanged |
| ModelFields.NormUfIdempotent | app/models/region.py:21-27 | a code without surrounding blanks normalises to itself |
| ModelFields.UfCodeInnerBlank | app/models/region.py:26-27 | a blank inside the first two characters survives the cut: `" a b "` becomes `"A "`, which a second pass turns into `"A"` |
| ModelFields.UfCodeOfLetters | app/models/user_profile.py:25-26 | two letters give those letters upper-cased |
| ModelFields.UfCodeOfPadded | app/models/region.py:26-27 | surrounding blanks make no difference to the code |
| ModelFields.ListFieldShape | app/models/policy.py:15-26 | every list item is non-empty and stripped, and an item cut from text holds no separator |
| ModelFields.ListFieldClean | app/models/requirement.py:41-53 | items cut from anything but a list are clean for the splitter's separators |
| ModelFields.ListFieldOfBlank | app/models/policy.py:20-22 | a text that is blank once stripped gives no item |
| ModelFields.SplitCell | app/models/policy.py:24-26 | the separator loop followed by the split at the pipe gives the stripped non-blank pieces of the one-pass split at every separator |
| ModelFields.ReplaceStep | app/models/policy.py:24-25 | one replace step turns exactly one more separator into a pipe |
| ModelFields.ReplaceDone | app/models/policy.py:24-26 | after the loop, splitting at the pipe is splitting the original text at every separator |
| ModelFields.SplitMapped | app/models/policy.py:26 | splitting at the pipe after every separator became a pipe is splitting the original at the separators |
| ModelFields.ListFieldOfJoin | app/models/policy.py:61-89 | clean items joined with a comma and a blank split back into the same items |
| ModelFields.JoinStripped | app/models/policy.py:89 | a join of clean items has no blank at either end |
| ModelFields.ListFieldOfFree | app/models/policy.py:26 | clean text without a separator reads as one item |
| ModelFields.CellPair | app/models/requirement.py:51-53 | two clean items around a separator and a blank read as two items |
| ModelFields.CellPairSpaced | app/models/policy.py:24-26 | two clean items around a blank-padded separator read as two items |
| SearchIndex.Norm | app/services/search_index.py:14-19 | None gives the empty text; otherwise the length is kept and every character left behind is a lower-case letter, a digit or whitespace |
| SearchIndex.NormChars | app/services/search_index.py:17-19 | an ASCII letter or digit is lower-cased, whitespace stays whitespace, and any other ASCII character becomes a blank |
| SearchIndex.NormCharFixed | app/services/search_index.py:17-19 | a character the normalisation may leave behind is left alone by it |
| SearchIndex.NormIdempotent | app/services/search_index.py:14-19 | normalising twice is normalising once |
| SearchIndex.NormConcat | app/services/search_index.py:14-19 | normalisation works character by character, so it distributes over concatenation |
| SearchIndex.TokensAreWords | app/services/search_index.py:21-22 | the tokens are exactly the words of the normalised query, each a run of letters and digits |
| SearchIndex.TokensBlank | app/services/search_index.py:21-22 | a query whose normalised text is blank has no tokens |
| SearchIndex.SubFromUnchanged | app/services/search_index.py:48 | with no whole-word occurrence left, the rest of the text is copied unchanged |
| SearchIndex.SubFromCopies | app/services/search_index.py:48 | up to the next whole-word occurrence the text is copied unchanged |
| SearchIndex.SubFromFirst | app/services/search_index.py:48 | the first whole-word occurrence is replaced: the text before it is copied and the replacement follows |
| SearchIndex.SubFromChars | app/services/search_index.py:48 | replacing with a text of some class of characters keeps a text of that class in it |
| SearchIndex.CountFromZero | app/services/search_index.py:56 | nothing is counted exactly when nothing matches as a whole word |
| SearchIndex.CountFromSkip | app/services/search_index.py:56 | positions without a match add nothing to the count |
| SearchIndex.SpaceNotWord | app/services/search_index.py:48-56 | a regex whitespace character is never a word character |
| SearchIndex.KeptWordChar | app/services/search_index.py:19-56 | in a normalised text the word characters are exactly the non-blanks |
| SearchIndex.RunNoMatch | app/services/search_index.py:56 | inside a run of word characters no token matches except the whole run |
| SearchIndex.RunMatch | app/services/search_index.py:56 | a whole run equal to the token is one match |
| SearchIndex.CountFromWords | app/services/search_index.py:56 | on a normalised text, counting whole-word occurrences of a token from a word start counts the equal words of the rest |
| SearchIndex.OccurrencesAreWords | app/services/search_index.py:56 | on a normalised text a token's whole-word occurrences are its equal words |
| SearchIndex.ScoreRow | app/services/search_index.py:52-57 | the loop sums each token's whole-word occurrences |
| SearchIndex.ScorePositive | app/services/search_index.py:52-76 | a row scores exactly when one of the tokens occurs in it as a whole word |
| SearchIndex.ScoreCountsWords | app/services/search_index.py:52-57 | on a normalised text the score is the number of equal (word, token) pairs |
| SearchIndex.PartsArePresentFields | app/services/search_index.py:33-37 | the parts are the present, non-missing scanned fields, in the fixed order, shown as text |
| SearchIndex.RowTextOf | app/services/search_index.py:33-38 | the field loop computes the row text: the parts joined with a pipe and normalised |
| SearchIndex.BuildIndex | app/services/search_index.py:24-50 | the row loop and the synonym loops compute the index; the input frame is a value and stays as it was |
| SearchIndex.RowTexts | app/services/search_index.py:39 | one row text per row |
| SearchIndex.InjectAll | app/services/search_index.py:42-48 | the outer synonym loop rewrites the whole column once for every key, in order |
| SearchIndex.InjectColumn | app/services/search_index.py:45-48 | the inner loop rewrites the whole column once for every synonym of a key |
| SearchIndex.InjectNorm | app/services/search_index.py:47-48 | an injection keeps the search text normalised |
| SearchIndex.InjectedNorm | app/services/search_index.py:42-48 | synonym injection keeps the search text normalised |
| SearchIndex.IndexShape | app/services/search_index.py:30-50 | the index adds the search-text column and keeps every other cell of every row; each search text is normalised, and is exactly the row text when there are no synonyms |
| SearchIndex.IndexOfNothing | app/services/search_index.py:30-31 | a missing or empty frame gives an empty frame with no columns |
| SearchIndex.ReplacedAt | app/services/search_index.py:48 | the replacement keeps the key where it was, followed by a blank and the synonym |
| SearchIndex.InjectFirst | app/services/search_index.py:48 | after an injection the key's first whole-word occurrence is still where it was, and an effective injection puts the synonym right after it |
| SearchIndex.InjectKeyFirst | app/services/search_index.py:45-48 | through all synonyms of a key its first occurrence stays put, and an effective last synonym follows it |
| SearchIndex.InjectKeyAbsent | app/services/search_index.py:48 | a key with no whole-word occurrence leaves the text alone |
| SearchIndex.Hits | app/services/search_index.py:75 | one score per searched row |
| SearchIndex.SearchPoliciesAsWrittenRaises | app/services/search_index.py:64-65 | as written, a missing index raises AttributeError, while the intended search gives an empty answer; on a present index both agree |
| SearchIndex.SearchPoliciesFixed | app/services/search_index.py:64-77 | the corrected search answers a missing index with an empty frame and never raises AttributeError; its only failures are a missing `search_text` column (KeyError) or a non-text `search_text` (TypeError) on a present index |
| SearchIndex.SearchNothing | app/services/search_index.py:64-69 | an empty index, an empty query or a query without tokens gives no rows and keeps the columns |
| SearchIndex.SearchErrors | app/services/search_index.py:71-76 | the search fails only on a frame without the search-text column (KeyError) or with a non-text search text among the searched rows (TypeError) |
| SearchIndex.RankedSpec | app/services/search_index.py:75-76 | the ranking is ordered by descending score, a permutation of the scoring rows, each carrying its row's score, with every scoring row present |
| SearchIndex.HeadSpec | app/services/search_index.py:77 | a head is a prefix, of the requested length for a non-negative count and dropping that many from the end for a negative one |
| SearchIndex.SearchResults | app/services/search_index.py:59-77 | a successful search answers with at most top rows, best first, each a searched row of the requested levels with its positive score added |
| SearchIndex.CadunicoWord | tests/test_services_search_index.py:9 | the word cadunico is its own normalisation, a token and a key |
| SearchIndex.CadUnicoNorm | tests/test_services_search_index.py:13 | both spellings of the synonym normalise to "cad unico" |
| SearchIndex.TestParts | tests/test_services_search_index.py:6-10 | all four scanned fields of the test row are present, in order |
| SearchIndex.TestRowText | tests/test_services_search_index.py:9 | the test row's text has cadunico as a whole word |
| SearchIndex.TestInjection | tests/test_services_search_index.py:13-14 | after the synonym loops the text contains "cad unico", and cadunico is still a whole word |
| SearchIndex.BuildIndexExample | tests/test_services_search_index.py:13-14 | the test's index has the search-text column, and its text contains "cad unico" |
| SearchIndex.CadunicoTokens | tests/test_services_search_index.py:15 | the test's query has the one token cadunico |
| SearchIndex.SearchSingle | app/services/search_index.py:71-77 | a level view of one scoring text row gives one result row carrying that score |
| SearchIndex.ExampleView | tests/test_services_search_index.py:11-15 | the level filter for Federal keeps the test row |
| SearchIndex.ExampleScore | tests/test_services_search_index.py:15-16 | the query scores the indexed test text above zero |
| SearchIndex.SearchExample | tests/test_services_search_index.py:15-16 | the test's search answers with one row of positive score |
| Seqs.SortByPerm | etl/make_policies_catalog.py:201 | a stable sort only reorders: the result is a permutation of the input |
| Seqs.SortBySorted | etl/make_policies_catalog.py:201 | the sorted result is ordered by the key order |
| Seqs.SortByStable | etl/make_policies_catalog.py:201 | elements that share a key come out in their input order, as the mergesort promises |
| Seqs.DedupBySpec | etl/make_policies_catalog.py:198 | dropping duplicates by a key, keeping the first, is an order-preserving selection in which no key occurs twice and every key's first element is kept |
| Seqs.SortByKeysDistinct | etl/defesos_to_processed.py:269 | sorting keeps distinct keys distinct |
| PyStr.LowerIdempotent | app/utils/text.py:15 | lower-casing twice is lower-casing once |
| PyStr.StripIdempotent | etl/common.py:56 | stripping twice is stripping once |
| PyStr.SplitJoin | app/models/policy.py:89 | pieces free of the separators split on at line 26, joined with one of them, split back into themselves |
| PyStr.JoinWordsSpaced | app/utils/text.py:17-21 | joining the words of a text with single blanks and no blank at either end gives the text back |
| PyStr.NatToStrInjective | etl/ucs_to_processed.py:103-134 | distinct counters give distinct texts |
| PyFloat.FloatOfIntegerText | app/models/user_profile.py:60 | the text of an integer reads back through float as that number |
| PyFloat.GroupedReads | app/utils/text.py:45 | `float` skips an underscore between two digits: two digit runs joined by one underscore read as the number of their digits run together |
| PyFloat.OneThousandGrouped | app/models/user_profile.py:60 | `float("1_000")` is one thousand |
| PyFloat.DigitRunGroups | app/utils/text.py:45 | every character of a digit run is a digit or an underscore with a digit on each side |
| PyFloat.DigitRunEnds | app/utils/text.py:45 | a non-empty digit run starts and ends with a digit |
| PyFloat.DigitRunUngroups | app/utils/text.py:45 | a digit run with its underscores dropped is all digits |
| PyValue.DictEqIgnoresOrder | app/pages/4_Resultado_auto.py:393 | the `in` test's dictionary equality ignores insertion order, and a dictionary with an extra key is not equal |


## Left out

- Streamlit UI and session plumbing. Not modelled: page set-up, widgets, badges, cards, query parameters, JSON upload and CSV download. This covers app/pages/4_Resultado_auto.py:21-24, 301-361, 566-662, app/pages/5_Resultado_manual.py:477-619 and app/pages/2_Cadastro.py:245-379. It also covers app/main.py, the other pages and app/components. These are interface rendering, not logic.
- File and data loading are input/output, so the model starts from the rows and frames the readers return. Not modelled:
  - `_load_first_available`, `_read_excel_if_exists`, the pandas reading parts of `load_from_raw_source`, and app/data_access;
  - `load_defesos` (app/services/defeso_calendar.py:16-24), `load_ucs` (app/services/uc_catalog.py:7-20) and `load_geo` (app/services/geo.py:26-57);
  - the readers of the ETL scripts, including `read_shapefile_robust` (etl/ucs_to_processed.py:37-64);
  - every file write, including the JSON/CSV/timestamped files and the repository call of `persist_profile`, whose answer is a parameter.
- geopandas work is not modelled, being geometry and file output:
  - etl/ibge_from_shapefile.py:37-132 beyond the two file lookups and the column resolution: reading, renaming, `merge`, `to_crs`, `simplify` and writing;
  - the main script of etl/ucs_to_processed.py (from line 145).
  - The directory walk of `find` is its list of entries in walk order. `Path.suffix` is modelled by its classic rule: from the last dot, unless that dot is the first or the last character.
- Database, hashing and locking (db.py), the network scripts, the subprocess runner, the Excel checks and the cache decorators are not modelled. All are outside collaborators.
- The legacy keyword matcher `utils.evaluate_requirements` is a parameter of `PoliciesEngine`, because its source is not part of this model. `load_keyword_map` is file input and is not modelled.
- The `regex` operator of the eligibility engine takes the regex matcher as a parameter, with `re.error` folded into a false result. Regular expressions are not modelled.
- DefesoCalendar.FilterDefesos, DefesoCalendar.ActiveDefesosOn and Frames.LowerContains model pandas' `str.contains(q, na=False)` as a plain substring test of the lower-cased texts. pandas' default is `regex=True`, so the source reads the query as a regular expression. Two cases differ: the query `"re."` matches `"rede"` in the source but not in the model, and the query `"("` raises `re.error` in the source but returns rows in the model. Regex semantics and `re.error` are not captured.
- Floating point is not modelled:
  - The `Value` datatype has no float. So `str(5.0) == "5.0"` is not modelled, nor `5 == 5.0` between an int and a float.
  - `Region`'s `lat` and `lon` fields are not modelled.
  - `PyFloat.Num` holds the parsed number as an exact real, not a rounded IEEE double. Comparisons and the status ratio of the automatic page are therefore exact.
- PyFloat.ParseFloat accepts what `float()` accepts for text: blanks, sign, digits with PEP 515 underscores, point, exponent, and the words inf, infinity and nan. It does not model overflow. `float("1e400")` is infinity in Python, while the model reads the exact number 10^400. Numbers above 2^53 are not rounded either.
- PyFloat.FloatOfIntegerText, PyValue.FloatOf and PyValue.FloatOfIntText read an integer or its text as that exact number. In Python `float(10**400)` raises OverflowError, `float(str(10**400))` is infinity, and integers above 2^53 are rounded.
- Operators.CoerceNumeric returns the integer itself for an int. In the source `float(10**400)` raises OverflowError, so `_coerce_numeric` returns None; overflow to infinity for text is not modelled either.
- TextUtils.SafeDefaults, TextUtils.SafeIntReads and TextUtils.SafeIntOfInteger: `safe_int` goes through `float`. In the source `safe_int("1e400")` and `safe_int(10**400)` return the default, because `int(inf)` and `float(10**400)` raise; in the model they return the number. Integers above 2^53 are also rounded in the source but kept exact here.
- TextUtils.SafeFloatReads and TextUtils.SafeFloatOfInteger read exact numbers. In the source `safe_float(10**400)` returns the default (OverflowError) and `safe_float("1e400")` is infinity.
- UserProfileModel.GetNumberCases reads the number through PyValue.FloatOf, so a text or integer too large for a double gives an exact number instead of infinity or no number.
- Character tables are approximated. Case mapping (`lower`, `upper`, `casefold`), NFKD accent stripping and the regex classes `\w`, `\s` and `\d` follow Python for ASCII and Latin-1, with three exceptions, and are approximated beyond. This affects PyStr.Lower, PyStr.Upper, PyStr.Casefold, PyStr.FoldAccents, PyStr.IsWordChar, ValidatorsBr.OnlyDigits and the whole-word tests of EtlPolicies and SearchIndex. The exceptions:
  - `str.upper` maps `ß` to `"SS"` and `µ` to `Μ` (U+039C). PyStr.UpperChar leaves both unchanged.
  - `casefold` maps `ß` to `"ss"` and `µ` to `μ`. PyStr.Casefold is PyStr.Lower, which keeps both.
  - NFKD expands `¼`, `½` and `¾` to three characters each (`"1⁄4"`). PyStr.FoldAccentChar keeps each as one character.
- TextUtils.StripAccentsAscii keeps the length of its text. In the source `¼`, `½` and `¾` become three characters each, so the source's result is longer.
- SearchIndex.Norm keeps the length of its text. In the source `_norm("½")` is `"1 2"`; in the model it is `" "`.
- TextUtils.Normalize, for the same reason, gives `""` for `"½"` where the source's `normalize` gives `"1 2"`.
- ModelFields.UfCode, RegionModel.UfField, RegionModel.MakeRegionFields and UserProfileModel.MakeProfileFields upper-case with PyStr.Upper. In the source the state code `"ß"` or `"ßx"` upper-cases to `"SS"` and is accepted; in the model `"ß"` is too short and `"ßx"` gives `"ßX"`. The code `"µx"` gives `"ΜX"` (U+039C) in the source and `"µX"` in the model.
- PyValue.Str shows list and dict cells with a simplified `repr`. Strings are always put in single quotes, without Python's switch to double quotes and without escaping.
- PyValue: dictionary keys are strings. Python's key identity `1 == 1.0 == True` between keys of different types is not modelled.
- PoliciesEngine.BatchEvaluatePolicies reports each row's position as its index. Frames here carry no index labels, so a frame with a non-default index is reported by position, not by label.
- SearchIndex.SearchPolicies sorts by score with a stable sort, keeping input order among equal scores. `sort_values` uses quicksort, which does not promise any order among equal scores. SearchIndex.RankedSpec states only what both share: descending scores and a permutation of the scoring rows.
- DefesoCalendar: dates are whole day numbers, so the time of day is lost. With `inicio` `"2025-08-10 08:00"`, the source reports that defeso as inactive on 2025-08-10, while DefesoCalendar.ActiveDefesosOn reports it as active. `pd.to_datetime` is the parameter `parse`.
- Pydantic's lax-mode coercions are narrowed:
  - A text field's input is text or None; bytes are not modelled.
  - The requirement type is given by its string value; an enum member passed directly is not modelled.
  - The negation flag is narrowed as the next line says.
- RequirementModel.NegateField accepts bools, the integers 0 and 1, and the lax words in any letter case. It rejects the floats 0.0 and 1.0, which pydantic accepts, because `Value` has no float.
- Frames: column labels are strings. A frame with integer or tuple column labels is not modelled.
- Cadastro: the clock and the random hex of `_generate_profile_code` are parameters. The model checks only the code's shape.
- Config: the environment and the `~`/variable expansion of paths are parameters. The `lru_cache` is modelled as a cached dictionary that `set_paths` drops.
- EtlDefesos: the `pd.to_datetime` fallback of `norm_date` is the parameter `fallback`, since its format guessing is outside the model. The four explicit formats are modelled.
- SearchIndex.PartsArePresentFields: a list or dict cell in a scanned field counts as present. In the source, `pd.notna` of such a cell is an element-wise array rather than one truth value, and that case is not modelled.

## Findings

| source | as written | input that shows it | evidently intended | confidence | as-written member | corrected member |
|---|---|---|---|---|---|---|
| app/pages/5_Resultado_manual.py:574-578 | the operator list, scanned in order, has no `<>`, so an item with `<>` is cut at its `>` | the missing item "renda <> 5" is looked up under the key "renda <", so its contacts are never found | the attribute before the `<>` operator ("renda") is the lookup key | not executed | ResultManual.NotEqualKeyAsWritten, ResultManual.NotEqualMissesContacts | ResultManual.NotEqualKeyFixed, ResultManual.FixedAgrees |
| app/services/search_index.py:64-65 | a missing index (None) reaches `index_df.head(0)` | `search_policies(None, "pesca")` raises AttributeError | an empty result, as for an empty index | not executed | SearchIndex.SearchPoliciesAsWrittenRaises | SearchIndex.SearchPoliciesFixed |
| app/services/defeso_calendar.py:37-42 | `view.get(col, "")` yields a plain string when the column is absent, and a string has no `.astype` | a species query on a frame without a `nome_popular` column raises AttributeError | a missing column matches nothing, as the other filters skip absent columns | not executed | DefesoCalendar.FilterDefesosAsWrittenRaises | DefesoCalendar.FilterDefesosMissingColumn, DefesoCalendar.FilterDefesosSelects |
| etl/defesos_to_processed.py:63,81 | the range separator also splits on every `-`, including the dashes inside ISO dates | the documented window "2024-12-30 a 2025-01-04" splits into "2024", "12", ... and yields no pair (or a year/month pair under the date fallback) | the pair ("2024-12-30", "2025-01-04") | not executed | EtlDefesos.ParseWindowsAsWrittenIso, EtlDefesos.ParseWindowsAsWrittenStrict | EtlDefesos.RangePartsFixedPair, EtlDefesos.ParseWindowsFixedIso, EtlDefesos.ParseWindowsFixedTwo |
| etl/defesos_to_processed.py:32-34 | a NaT timestamp passes the datetime test and is formatted | a row whose start and end dates are NaT produces the period ("NaT", "NaT") | no date (None), so the row has no period | not executed | EtlDefesos.NaTRowAsWritten | EtlDefesos.NormDateFixed, EtlDefesos.NaTRowFixed |
| etl/ucs_to_processed.py:102-106,115 | new names are checked only against the columns before renaming, and `rename` renames every column carrying the old label | two columns named x with different contents become x_2 and x_2 | every kept column has a distinct name | not executed | EtlUcs.DedupeClash | EtlUcs.DedupeFixedUnique |
| etl/ucs_to_processed.py:124-140 | a generated name is not checked against the names already present | the columns x, x, x_2 become x, x_2, x_2 | unique names without losing any column, as the docstring says | not executed | EtlUcs.ForceUniqueClash | EtlUcs.ForceUniqueFixed |
| etl/policies_to_processed.py:46,80,122-125 | the text is cut at the first comma before the full-name lookup, and the SEDEME full name contains a comma | "Secretaria de Estado de Desenvolvimento Econômico, Mineração e Energia" is never mapped to SEDEME/PA | the full name maps to SEDEME/PA | not executed | EtlPolicies.SedemeNeverMatches | EtlPolicies.ChunkFixedSedeme, EtlPolicies.NormalizeResponsavelFixedSpec |
| etl/policies_to_processed.py:195-198,260-263 | `str(x or "")` turns a NaN cell into the text "nan" | a requirement with a NaN name is listed as "- nan"; a parameter with a NaN value is shown as "name: nan" | missing cells are treated as empty | not executed | EtlPolicies.NanRequirementListed, EtlPolicies.NanValueShown | EtlPolicies.NanRequirementSkipped, EtlPolicies.NanValueDropped |
| etl/make_policies_catalog.py:150,163 | `astype(str)` turns missing ids and names into "nan" before `dropna` looks for missing values | a row with neither policy_id nor policy_name is kept, with both cells "nan" | rows with neither id nor name are removed, as the comment at line 162 says | not executed | EtlCatalog.AsWrittenKeepsEmptyRows | EtlCatalog.CorrectedDropsEmptyRows, EtlCatalog.CollectPoliciesFixed |
