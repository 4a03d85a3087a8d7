# Clinic patient data: cleaning toolkit, patient model and API helpers

This project is a Dafny model of the core of a small clinic information system. It has
three parts.

- **The data-cleaning toolkit** (`src/limpieza_utils.py`). These are functions over a
  pandas DataFrame of visits, modelled as the class `Frame.DataFrame`. Its columns are
  a map from name to a sequence of cells, and every tool is a method that replaces or
  drops columns in place. The tools are:
  - the text preparation that joins, folds and normalises source columns (`TextPrep`);
  - the first-match brand classifier with its 28 ordered patterns (`Classifier`, over
    the generic masking loop in `FirstMatch`);
  - the extractors of units, syringes and debt amounts (`Quantities`, `Debt`), written
    as recognisers whose leftmost match, greedy group and parsed value are proved
    against a declarative reading of each regular expression;
  - the debt flags, with and without the "paid/cancelled" exceptions (`Debt`);
  - the "(PP)" problem-patient markers (`Markers`);
  - the identity reconstruction and the per-DNI coalescing (`Repair`);
  - the digit-and-dot numeric conversion (`Numeric`).
- **The catalogue of services and brands** (`src/catalogo.py`, module `Catalogo`). It
  holds the canonical services, their priority list, the brand patterns, the generic
  keyword patterns and the default brand per service.
- **The back end and front end of the patient records:**
  - the `Paciente` model with its derived age, birth date and data-quality alerts
    (`PacienteModel`);
  - the second `Paciente` of the routes file, with `to_dict` and `_to_camel_case`
    (`Routes`, `CamelCase`);
  - `BaseModel.to_dict` and `update` (`Base`);
  - the JSON envelopes (`Responses`);
  - the marshmallow validators (`Validator`);
  - the front-end form validator and display formatter (`FrontValidators`,
    `Formatters`).

Shared modules:
- `Prelude`: characters, digits, strip and split.
- `Values`: Python values and insertion-ordered dicts as entry lists.
- `Regex`: a small regular-expression AST with backtracking search semantics.
- `Dates`: Gregorian dates, ordering and ISO text.

`date.today()` is a parameter (`hoy`, `today`) wherever the source reads it.

Where the source's comments and its code disagree, the model follows the code:
- The comment at `src/limpieza_utils.py:55` says `'S/. 1,500.50'` becomes `'1500.50'`.
  The code keeps the dot of `S/.`, so the text becomes `'.1500.50'`, which converts to
  NaN. See `Numeric.CurrencyExample`.
- The comment at `src/catalogo.py:48` reads `RADIESSE?` as "Radiesse or Radies". The
  pattern accepts `RADIESS` and `RADIESSE`. See `Catalogo.RadiesseAccepts`.

## Model

| member | source | states |
|---|---|---|
| Prelude.Strip | src/limpieza_utils.py:219 | `str.strip()`: the result is a contiguous slice of the input, with no white space at either end, and everything removed before and after it is white space |
| Prelude.Split | src/clinica_backend/app/routes/pacientes.py:288 | `key.split('_')`: at least one piece, and no piece contains the separator |
| Prelude.JoinSplit | src/clinica_backend/app/routes/pacientes.py:288 | joining the pieces of a split with the separator gives the text back |
| Prelude.UpperAscii | src/limpieza_utils.py:215 | `str.upper()` keeps the length and upper-cases each character on its own |
| Prelude.IntText | src/clinica_frontend/modules/utils/formatters.py:16 | `str(i)`: the digits of the absolute value, with a leading '-' when i is negative |
| Values.SetSpec | src/clinica_backend/app/routes/pacientes.py:290 | a dict assignment leaves the keys distinct and binds the key to the value. No other key changes. An existing key keeps its place, and a new key goes last |
| Values.SetChain | src/clinica_backend/app/routes/pacientes.py:248-262 | three or four assignments of fresh, distinct keys append exactly those entries, in that order |
| Frame.AsText | src/limpieza_utils.py:214 | `astype(str)`: text is kept, and None, NaN and pd.NA render as `None`, `nan` and `<NA>` |
| Frame.ColumnText | src/limpieza_utils.py:313 | a column as text, cell by cell |
| Frame.DataFrame.SetColumn | src/limpieza_utils.py:278 | `df[col] = series`: the column is replaced, or added last when new; nothing else changes |
| Frame.DataFrame.DropColumn | src/limpieza_utils.py:358 | `df.drop(columns=[c], inplace=True)`: that column and its name go, and the rest keep their order |
| Frame.RemoveAbsent | src/limpieza_utils.py:358 | dropping a name that is not there leaves the names as they were |
| Frame.RemoveNameSpec | src/limpieza_utils.py:358 | removing a name from distinct names leaves them distinct |
| TextPrep.AccentFold | src/limpieza_utils.py:200-206 | folding a character gives ASCII text, and an ASCII character is kept as it is |
| TextPrep.StripAccents | src/limpieza_utils.py:200-206 | the output is all ASCII, and ASCII input comes out unchanged |
| TextPrep.ReplaceDisallowed | src/limpieza_utils.py:217 | the length is kept; every character outside A-Z, 0-9, '+' and ' ' becomes a space, and every other character is kept |
| TextPrep.CollapseSpaces | src/limpieza_utils.py:218 | empty exactly when the input is empty; a leading whitespace run becomes one space; every character that is not white space is kept, in order, and no other is added |
| TextPrep.CollapseSplit | src/limpieza_utils.py:216-218 | every whitespace run between two words becomes exactly one space, so the words are neither glued together nor pushed further apart |
| TextPrep.StripKeeps | src/limpieza_utils.py:219 | stripping the ends keeps every character that is not white space, in order |
| TextPrep.ReplaceKeeps | src/limpieza_utils.py:217 | after the replace step the characters other than white space are exactly the input's letters A-Z, digits and '+', in order |
| TextPrep.CollapsePlain | src/limpieza_utils.py:218 | after collapsing, no two spaces are adjacent and the only white space is ' ' |
| TextPrep.CollapseAllowed | src/limpieza_utils.py:217-218 | collapsing keeps text inside the allowed alphabet |
| TextPrep.CollapseLast | src/limpieza_utils.py:218 | the last character after collapsing is the last input character, or a space when that was white space |
| TextPrep.StripShape | src/limpieza_utils.py:219 | stripping allowed text with no double spaces gives normalised text |
| TextPrep.CleanShape | src/limpieza_utils.py:217-219 | replace, collapse and strip always give normalised text: allowed characters only, single inner spaces, none at the ends; its non-space characters are the input's A-Z, 0-9 and '+', in order |
| TextPrep.CollapseNormalized | src/limpieza_utils.py:218 | collapsing changes nothing in text with single plain spaces |
| TextPrep.CleanFixpoint | src/limpieza_utils.py:217-219 | normalised text is a fixpoint of the cleaning |
| TextPrep.NormalizedIsPlain | src/limpieza_utils.py:215-219 | normalised text is unchanged by the accent fold and by upper-casing |
| TextPrep.NormalizeSpec | src/limpieza_utils.py:215-219 | the normalisation always yields normalised text, and it is idempotent; its non-space characters are the A-Z, 0-9 and '+' of the folded, upper-cased input, in order |
| TextPrep.Present | src/limpieza_utils.py:211 | exactly the requested names that are columns, never more than were requested |
| TextPrep.RowCells | src/limpieza_utils.py:214 | the row's cells of the chosen columns, each as `astype(str)` text, in column order |
| TextPrep.RowText | src/limpieza_utils.py:214-219 | the joined row after normalising is normalised text |
| TextPrep.RowTexts | src/limpieza_utils.py:214-219 | one text per row: that row's cells joined with ' ' and normalised |
| TextPrep.PrepText | src/limpieza_utils.py:208-220 | `_prep_text` raises ValueError exactly when no requested column exists; otherwise it returns one normalised text per row |
| TextPrep.PrepTextSpec | src/limpieza_utils.py:209-211 | a single name behaves as a one-name list, and names that are not columns are dropped |
| TextPrep.PrepTextRow | src/limpieza_utils.py:214-219 | each row's text is the normalised join of its present cells |
| TextPrep.NormalizeUpper | src/limpieza_utils.py:215 | ASCII text whose upper-case form is already normalised normalises to that form |
| TextPrep.MissingCellsAreTokens | src/limpieza_utils.py:214-219 | missing cells reach the classifier as the words NONE, NAN and NA |
| FirstMatch.Step | src/limpieza_utils.py:276 | `out.mask(mask & (out == "OTRO"), marca)`: a label already set is kept; the default becomes the mark exactly on a hit |
| FirstMatch.FoldPrefix | src/limpieza_utils.py:274-276 | applying one more pattern is one more mask step |
| FirstMatch.ApplyRules | src/limpieza_utils.py:273-276 | the masking loop gives every row the fold of all patterns over its text |
| FirstMatch.FoldFirst | src/limpieza_utils.py:273-276 | when no pattern's label is the default, a row keeps the default iff no pattern hits, and otherwise gets the label of the first pattern that hits |
| FirstMatch.FirstExists | src/limpieza_utils.py:273-276 | some pattern hitting implies a first hitting pattern |
| FirstMatch.FirstUnique | src/limpieza_utils.py:273-276 | the first hitting pattern is unique |
| Regex.RunEnd | src/limpieza_utils.py:289 | a greedy run (`\s*`, `\d+`) ends at the first character outside it |
| Regex.Leftmost | src/limpieza_utils.py:291 | `str.extract` takes the leftmost start at which the pattern matches; no earlier start matches |
| Regex.WordMatch | src/limpieza_utils.py:239 | `\bW\b` matches at i iff W is there with no word character on either side |
| Regex.WordSearch | src/limpieza_utils.py:303 | searching for `\bW\b` succeeds iff W occurs somewhere as a whole word |
| Classifier.BrandsAreNotDefault | src/limpieza_utils.py:237-271 | there are 28 patterns, and none is labelled "OTRO" |
| Classifier.BrandSpec | src/limpieza_utils.py:233-276 | a text is "OTRO" iff no pattern matches it; otherwise it gets the brand of the first pattern, in list order, that matches |
| Classifier.ClassifyRows | src/limpieza_utils.py:273-276 | one brand per row, as BrandSpec describes |
| Classifier.ExtraerProductoPrincipal | src/limpieza_utils.py:222-279 | raises ValueError and changes nothing exactly when `_prep_text` raises. Otherwise only the output column is written, and each row holds the brand of its prepared text. The output column keeps its place, or is added last |
| Classifier.BotoxFirst | src/limpieza_utils.py:239 | a text that starts with the word BOTOX is BOTOX |
| Classifier.BotoxThenTizo | src/limpieza_utils.py:237-276 | "BOTOX TIZO" is BOTOX, because the toxins come first in the list |
| Quantities.TailSpec | src/limpieza_utils.py:289 | the recognised tail (spaces, then U, UND, UNID or UNIDADES as a whole word) agrees with its declarative reading |
| Quantities.GroupsEnd | src/limpieza_utils.py:289 | the end of the `(?:[.,]\d{3})*` groups lies within the text, and everything before it is digits or separators |
| Quantities.GroupsEndSpans | src/limpieza_utils.py:289 | the greedy end is a valid end of the groups |
| Quantities.GroupsStop | src/limpieza_utils.py:289 | a run of groups that cannot be extended ends at the greedy end |
| Quantities.UnitsAt | src/limpieza_utils.py:289 | a match captures a non-empty run of digits and separators |
| Quantities.UnitsAtSpec | src/limpieza_utils.py:289 | the recogniser returns g at i exactly when the units pattern, read declaratively, matches there with its group ending at g |
| Quantities.ExtractUnits | src/limpieza_utils.py:291 | an extracted units group is non-empty digits and separators |
| Quantities.ExtractUnitsNone | src/limpieza_utils.py:291 | no extraction exactly when the pattern matches nowhere |
| Quantities.ExtractUnitsLeftmost | src/limpieza_utils.py:291 | the extraction is the group of the leftmost match |
| Quantities.DropSepsDigits | src/limpieza_utils.py:292 | removing '.' and ',' from the group leaves digits only |
| Quantities.UnitsColumn | src/limpieza_utils.py:290-293 | a row is `<NA>` exactly when nothing is extracted; otherwise it is the integer that the extracted group's digits spell once `[.,]` is removed |
| Quantities.UnitsThousands | src/limpieza_utils.py:289-293 | "1.500 U" gives 1500 |
| Quantities.UnitsGlued | src/limpieza_utils.py:289-293 | "50U" gives 50 |
| Quantities.SyringesAt | src/limpieza_utils.py:330 | a syringes match captures digits with at most one dot-decimal part, and the capture converts to a number |
| Quantities.SyringesAtSpec | src/limpieza_utils.py:330 | the recogniser agrees with the declarative reading of the syringes pattern |
| Quantities.ExtractSyringes | src/limpieza_utils.py:332 | an extracted syringes group always converts |
| Quantities.ExtractSyringesNone | src/limpieza_utils.py:332 | no extraction exactly when the pattern matches nowhere |
| Quantities.ExtractSyringesLeftmost | src/limpieza_utils.py:332 | the extraction is the group of the leftmost match |
| Quantities.SyringesColumn | src/limpieza_utils.py:331-334 | every cell is numeric, and NaN exactly where nothing is extracted |
| Quantities.SyringesDecimalComma | src/limpieza_utils.py:330-334 | in "1,5 J" the `\b` before the digits gives "5", so the row is 5, not 1.5 |
| Quantities.ExtraerUnidades | src/limpieza_utils.py:283-294 | writes `unidades` from the source column, keeping its place or adding it last, and changes nothing when that column is absent |
| Quantities.ExtraerJeringas | src/limpieza_utils.py:324-335 | writes `jeringas` from the source column, keeping its place or adding it last, and changes nothing when that column is absent |
| Debt.DebtFlagSpec | src/limpieza_utils.py:303 | the flag is true iff DEUDA occurs as a whole word, in any letter case |
| Debt.ContextRefinesFlag | src/limpieza_utils.py:383-395 | the context flag implies the plain flag, and they differ exactly when an exception pattern ("CANCELA/CANCELO/PAGO DEUDA") matches |
| Debt.ExceptionHasWord | src/limpieza_utils.py:390 | an exception match contains DEUDA as a whole word |
| Debt.PaidDebt | src/limpieza_utils.py:386-395 | "PAGO DEUDA" is a debt for the plain flag but not a generated debt |
| Debt.DebtThenPaid | src/limpieza_utils.py:386-395 | "DEUDA PAGADA" still counts as a generated debt |
| Debt.Pat1At | src/limpieza_utils.py:314 | the first pattern's group lies after DEUDA and is digits and separators |
| Debt.Pat1Sound | src/limpieza_utils.py:314 | the recogniser's result is a match of the first pattern |
| Debt.Pat1Greedy | src/limpieza_utils.py:314 | every match at i starts its group at the same place and ends it no later than the recogniser's |
| Debt.Pat1Exists | src/limpieza_utils.py:314 | the first pattern matches at i iff DEUDA is there, in any case, with a digit after it |
| Debt.Monto1 | src/limpieza_utils.py:316 | an extracted amount is non-empty digits and separators |
| Debt.Monto1Exists | src/limpieza_utils.py:316 | an amount is found iff some DEUDA is followed by a digit |
| Debt.Pat2At | src/limpieza_utils.py:315 | the second pattern's group lies after DEUDA and is digits and separators |
| Debt.Pat2Spec | src/limpieza_utils.py:315 | the recogniser's result is a match of the second pattern, with the latest group start (the greedy `[^0-9]*` gives back as little as it must) and, for that start, the longest group |
| Debt.Pat2Complete | src/limpieza_utils.py:315 | if the second pattern matches at i, the recogniser finds it |
| Debt.Monto2Separators | src/limpieza_utils.py:317-319 | when the first pattern finds nothing, whatever the second captures has no digit, so it converts to NaN |
| Debt.Combined | src/limpieza_utils.py:319 | `monto1.fillna(monto2)` yields digits and separators |
| Debt.CleanAmount | src/limpieza_utils.py:319-320 | removing thousands separators and turning ',' into '.' leaves digits with at most one dot |
| Debt.AmountReading | src/limpieza_utils.py:319-320 | an amount of digits, thousands groups and optional cents converts to its reading |
| Debt.AmountValueSpec | src/limpieza_utils.py:314-320 | no amount without a first-pattern capture; otherwise the value is the reading of that capture |
| Debt.AmountFourDigits | src/limpieza_utils.py:314-320 | "deuda 1,5000" captures "1,500" and gives 1500 |
| Debt.AmountWithCents | src/limpieza_utils.py:314-320 | "DEUDA S/ 1,500.50" gives 1500.5 |
| Debt.AmountColumn | src/limpieza_utils.py:320 | every cell is numeric, and NaN exactly where no value is read |
| Debt.ExtraerMontoDeuda | src/limpieza_utils.py:307-321 | writes `deuda_monto`, keeping its place or adding it last, and changes nothing when the source column is absent |
| Debt.DebtColumn | src/limpieza_utils.py:303 | each row is the plain debt flag of its text |
| Debt.ContextColumn | src/limpieza_utils.py:383-395 | each row is the context flag of its text |
| Debt.MarcarDeuda | src/limpieza_utils.py:297-304 | writes `deuda`, keeping its place or adding it last, and changes nothing when the source column is absent |
| Debt.MarcarDeudaConContexto | src/limpieza_utils.py:376-403 | writes `deuda_generada` when the source column exists (in its place, or last), and in every case leaves no `deuda` column. The other columns keep their order |
| Markers.HasPPMarkSpec | src/limpieza_utils.py:345 | the mark test holds iff "(PP)" occurs in the text |
| Markers.ProblemFlags | src/limpieza_utils.py:345-354 | one flag per row |
| Markers.ProblemFlagsSpec | src/limpieza_utils.py:345-354 | a row is problematic iff its name contains "(PP)" or its `pp` cell is not null; with no `pp` column only the mark counts |
| Markers.ConsolidarMarcadorProblematico | src/limpieza_utils.py:337-361 | raises KeyError('nombre') and changes nothing when there is no `nombre`. Otherwise it writes `paciente_problematico` (in its place, or last) and drops `pp`, and the other columns keep their order |
| Markers.ParenAtSpec | src/limpieza_utils.py:370 | the recogniser matches `\s*\([^)]*\)` at i exactly up to e |
| Markers.ScrubNoGroup | src/limpieza_utils.py:370 | after the replacement, no parenthesised group is left |
| Markers.ScrubFixpoint | src/limpieza_utils.py:370 | text without groups is unchanged |
| Markers.CleanNameSpec | src/limpieza_utils.py:370 | a cleaned name has no group and no "(PP)", and cleaning it again changes nothing |
| Markers.PlainName | src/limpieza_utils.py:370 | a name without '(' is only stripped |
| Markers.MarkedName | src/limpieza_utils.py:370 | "Juan Perez (PP)" becomes "Juan Perez" |
| Markers.CleanNames | src/limpieza_utils.py:370 | each row is the cleaned text of its cell |
| Markers.LimpiarNombreProblematico | src/limpieza_utils.py:363-371 | rewrites `nombre` only, and changes nothing without it |
| Repair.LastWith | src/limpieza_utils.py:87-89 | a value found by the `keep='last'` map is never null |
| Repair.LastWithSpec | src/limpieza_utils.py:87-89 | nothing is found iff no row has both the key and a value; otherwise the value of the last such row is found |
| Repair.FillFrom | src/limpieza_utils.py:99-105 | one cell per row |
| Repair.FillFromSpec | src/limpieza_utils.py:99-105 | a present cell is kept. A null cell stays null iff its probe is null or unmapped, and otherwise takes the last complete row's value for its probe |
| Repair.FloatDni | src/limpieza_utils.py:85 | a DNI read as a float, such as 123.0, loses its '.0' |
| Repair.NormDni | src/limpieza_utils.py:85 | a normalised DNI is text or missing |
| Repair.NormName | src/limpieza_utils.py:86 | no sentinel text (`<NA>`, `None`, `nan`, '') is left, and each cell is either kept or becomes None |
| Repair.NormNameSpec | src/limpieza_utils.py:86 | the replacement is idempotent, keeps every other text and turns each sentinel into None |
| Repair.NormMissing | src/limpieza_utils.py:85-86 | a missing DNI becomes None through `astype(str)`; a missing name is kept as it is |
| Repair.RebuiltNames | src/limpieza_utils.py:99-100 | one name per row |
| Repair.RebuiltDnis | src/limpieza_utils.py:104-105 | one DNI per row |
| Repair.RebuiltSpec | src/limpieza_utils.py:85-105 | present names and DNIs are kept. A missing name takes the last complete name for its DNI. A missing DNI takes the last complete DNI for the name after the first fill |
| Repair.DemoFrame | src/limpieza_utils.py:120-142 | in the demo frame, row 2 gets "Juan Perez" and row 3 gets "123" |
| Repair.ReconstruirIdentidades | src/limpieza_utils.py:72-108 | without `dni` or `nombre`, nothing changes; otherwise both columns are rebuilt as above |
| Repair.Coalesce | src/limpieza_utils.py:434-441 | one cell per row |
| Repair.CoalesceSameKeys | src/limpieza_utils.py:434 | coalescing depends on the DNI column only through which rows are null and their present values |
| Repair.CoalesceDni | src/limpieza_utils.py:423-441 | coalescing the `dni` column itself leaves its keys as they were |
| Repair.ConsolidateAll | src/limpieza_utils.py:423-441 | the columns are the same, and every column has the frame's height |
| Repair.ConsolidateAllSpec | src/limpieza_utils.py:423-441 | columns not listed are unchanged, and each listed one is coalesced against the original DNIs |
| Repair.CoalesceKeepsLast | src/limpieza_utils.py:434-441 | the last value per DNI is the same after coalescing |
| Repair.CoalesceIdem | src/limpieza_utils.py:434-441 | coalescing twice is coalescing once |
| Repair.ConsolidarInformacionPaciente | src/limpieza_utils.py:410-443 | without `dni`, nothing changes; otherwise the frame becomes ConsolidateAll of the old columns |
| Numeric.KeepDigitsAndDots | src/limpieza_utils.py:56 | `[^\d.]` removed: only digits and dots remain, and such text is unchanged |
| Numeric.ParseCleaned | src/limpieza_utils.py:62 | `to_numeric` of digits and dots: a number iff there is no dot and a digit, or one dot and another character; an integer exactly in the first case |
| Numeric.ParseDigits | src/limpieza_utils.py:62 | a digit string converts to its value |
| Numeric.NumericColumn | src/limpieza_utils.py:62 | the column is int64 when every row is an integer, and float otherwise, with NaN where conversion failed |
| Numeric.CleanNumericColumn | src/limpieza_utils.py:50-62 | every cell of the cleaned column is numeric |
| Numeric.CleanNumericRow | src/limpieza_utils.py:50-62 | a row is NaN exactly when its cleaned text does not convert |
| Numeric.CurrencyExample | src/limpieza_utils.py:55-62 | 'S/. 1,500.50' becomes '.1500.50' and then NaN |
| Numeric.PlainAmount | src/limpieza_utils.py:62 | '1500.50' converts to 1500.5 |
| Numeric.LimpiarYConvertirANumerico | src/limpieza_utils.py:43-68 | rewrites that one column, and changes nothing when it is absent |
| Numeric.NumColsSpec | src/limpieza_utils.py:30-37 | the same columns; unlisted ones are unchanged and lengths are kept |
| Numeric.NumColsNumeric | src/limpieza_utils.py:30-37 | every listed column holds numeric cells afterwards |
| Numeric.LimpiarNumCols | src/limpieza_utils.py:25-37 | the loop leaves the frame equal to NumColsSpec of the old columns |
| Catalogo.MarcaDe | src/catalogo.py:33-93 | a brand lookup fails iff the name is absent, and otherwise returns an entry of that name |
| Catalogo.MarcaDeEntry | src/catalogo.py:33-93 | with distinct names, the lookup returns the entry's brand |
| Catalogo.Rank | src/catalogo.py:19-27 | a service's rank is its position in the priority list |
| Catalogo.PrincipalFromSpec | src/catalogo.py:16-27 | the search from position i finds nothing iff no later service is present, and otherwise finds the first present one |
| Catalogo.ServicioPrincipalSpec | src/catalogo.py:16-27 | the principal service is absent iff none was found; otherwise it is a found service with the best rank of all found |
| Catalogo.PrioridadDistinct | src/catalogo.py:8-27 | seven services, all distinct and all in the list, with distinct names |
| Catalogo.ToxinaWins | src/catalogo.py:18-20 | toxin wins over every other service |
| Catalogo.MarcasWellFormed | src/catalogo.py:33-93 | 20 brands with distinct names, each with at least one pattern |
| Catalogo.ServiciosWellFormed | src/catalogo.py:98-106 | five generic patterns, each mapped to a different service |
| Catalogo.GenericosConsistent | src/catalogo.py:111-117 | the default brand of each service is a brand of that very service |
| Catalogo.GenericosKeys | src/catalogo.py:111-117 | defaults exist for RellenoHA, Bioestimulador and Mesoterapia only |
| Catalogo.RadiesseAccepts | src/catalogo.py:48 | on a single word, `\bRADIESSE?\b` accepts RADIESS and RADIESSE and nothing else |
| Catalogo.RadiesseBrand | src/catalogo.py:48 | the RADIESSE brand accepts exactly RADIESS, RADIESSE and RADIESE as words |
| Catalogo.UnboundedInside | src/catalogo.py:73-80 | COMPACT, EXTREME and JABON have no `\b`, so they hit inside longer words |
| Catalogo.SvrIsAWord | src/catalogo.py:79 | `\bSVR\b` accepts only the word SVR |
| Catalogo.BotoxAndTizo | src/catalogo.py:16-20 | "BOTOX TIZO" hits both brands, and toxin is the principal service |
| Dates.DaysInMonth | src/clinica_backend/app/models/paciente.py:148-155 | a month has 28 to 31 days; February has 29 exactly in leap years |
| Dates.MakeDate | src/clinica_backend/app/models/paciente.py:148-155 | `date(y, m, d)` succeeds iff the date is valid, and raises ValueError otherwise |
| Dates.FebruaryFacts | src/clinica_backend/app/models/paciente.py:154 | 29 February exists only in leap years, and 30 and 31 February never |
| Dates.BeforeOrder | src/clinica_backend/app/utils/validator.py:7-12 | date comparison is a strict total order |
| Dates.PadValue | src/clinica_backend/app/models/paciente.py:201 | zero padding to width w keeps the value |
| Dates.IsoRoundTrip | src/clinica_backend/app/models/paciente.py:201 | `isoformat()` has ten characters and parses back to the date |
| Dates.IsoInjective | src/clinica_backend/app/models/paciente.py:201 | distinct dates have distinct ISO texts |
| PacienteModel.Edad | src/clinica_backend/app/models/paciente.py:116-137 | None iff the year is unset. Without month and day it is today's year minus the birth year. With both, it is the number of birthdays reached by today |
| PacienteModel.AgeUnique | src/clinica_backend/app/models/paciente.py:126-132 | that number of reached birthdays is unique |
| PacienteModel.EdadOnBirthday | src/clinica_backend/app/models/paciente.py:125-137 | someone born on 14/10/2000 is 26 on 14/10/2026 and 25 the day before |
| PacienteModel.FechaCompleta | src/clinica_backend/app/models/paciente.py:139-155 | the full birth date exists iff all three parts are truthy and the date is valid |
| PacienteModel.FebruaryBirthdays | src/clinica_backend/app/models/paciente.py:147-155 | 31/2/1990 gives None, and 29/2/2000 gives a date |
| PacienteModel.FechaAlertas | src/clinica_backend/app/models/paciente.py:165-171 | each date alert is raised iff its condition holds, in the source's order, with at most two |
| PacienteModel.TelefonoAlertas | src/clinica_backend/app/models/paciente.py:173-174 | `sin_telefono` is raised iff the phone is falsy |
| PacienteModel.DistritoAlertas | src/clinica_backend/app/models/paciente.py:176-177 | `sin_distrito` is raised iff `id_distrito` is falsy |
| PacienteModel.AlertasSpec | src/clinica_backend/app/models/paciente.py:157-179 | each of the five alerts is raised iff its condition holds, in the source's order |
| PacienteModel.AlertasConsequences | src/clinica_backend/app/models/paciente.py:157-179 | a missing month or day always also means an invalid date; there are no alerts iff the date is valid and the phone and district are set |
| PacienteModel.Atributos | src/clinica_backend/app/models/paciente.py:28-88 | one attribute per mapped column |
| PacienteModel.FechaValueParses | src/clinica_backend/app/models/paciente.py:199-203 | the birth date is text iff the full date exists, and that text parses back to it |
| PacienteModel.ToDictCompletoRaises | src/clinica_backend/app/models/paciente.py:214-215 | `to_dict_completo` as written always raises AttributeError for `_to_camel_case` |
| PacienteModel.DatosShape | src/clinica_backend/app/models/paciente.py:193-212 | the dict is the columns followed by `edad`, `alertas`, `fecha_nacimiento` and `distrito` |
| PacienteModel.CamelOfColumns | src/clinica_backend/app/routes/pacientes.py:285-292 | converting columns plus well-keyed extra entries keeps every entry in order under its camelCase key, and snake_case gives each column back |
| PacienteModel.ColumnasSnake | src/clinica_backend/app/models/paciente.py:28-88 | every column name is snake_case |
| PacienteModel.ColumnasDistinct | src/clinica_backend/app/models/paciente.py:28-88 | the columns are distinct and clash with no derived key |
| PacienteModel.ToDictCompletoKeys | src/clinica_backend/app/models/paciente.py:185-215 | the intended camelCase dict has distinct keys with no underscore |
| PacienteModel.ToDictCompletoSpec | src/clinica_backend/app/models/paciente.py:185-215 | the intended dict has 15 entries: the 11 columns, then the four derived ones under camelCase keys |
| PacienteModel.DatosWellKeyed | src/clinica_backend/app/models/paciente.py:193-212 | the derived keys are distinct, snake_case and not column names |
| Routes.RutaColumnasSpec | src/clinica_backend/app/routes/pacientes.py:14-123 | the same eleven columns as the model class, in another order, distinct and snake_case |
| Routes.DerivadosRuta | src/clinica_backend/app/routes/pacientes.py:248-262 | four added entries when relations are asked for and a district exists, three otherwise |
| Routes.RutaKeysFresh | src/clinica_backend/app/routes/pacientes.py:248-262 | the added keys are distinct and not columns |
| Routes.DatosRutaShape | src/clinica_backend/app/routes/pacientes.py:245-262 | the dict is the columns followed by the added entries |
| Routes.FechaCamelSnake | src/clinica_backend/app/routes/pacientes.py:253 | `fechaNacimiento` reads back as `fecha_nacimiento` |
| Routes.ToDictSpec | src/clinica_backend/app/routes/pacientes.py:237-267 | `to_dict` gives 15 entries with a district and relations, and 14 otherwise: the columns under camelCase keys, then edad, alertas, fechaNacimiento and maybe distrito |
| Routes.ToDictKeys | src/clinica_backend/app/routes/pacientes.py:264-267 | its keys are distinct and have no underscore |
| CamelCase.TitleFrom | src/clinica_backend/app/routes/pacientes.py:289 | `str.title()` from a given state: the length is kept; a letter after a letter is lowered, and the rest are raised |
| CamelCase.Title | src/clinica_backend/app/routes/pacientes.py:289 | `str.title()`: the first character is raised, and each later one is lowered after a letter and raised otherwise |
| CamelCase.TitleIdempotent | src/clinica_backend/app/routes/pacientes.py:289 | title-casing twice is title-casing once |
| CamelCase.TitleNoUnderscore | src/clinica_backend/app/routes/pacientes.py:288-289 | title-casing a piece without underscore adds none |
| CamelCase.CamelKeyNoUnderscore | src/clinica_backend/app/routes/pacientes.py:288-289 | a converted key has no underscore |
| CamelCase.CamelKeyPlain | src/clinica_backend/app/routes/pacientes.py:288-289 | a key without underscore is kept |
| CamelCase.CamelDictSpec | src/clinica_backend/app/routes/pacientes.py:285-292 | the converted dict has distinct keys without underscores, and each key maps to the last entry converted to it |
| CamelCase.CamelDictNoCollision | src/clinica_backend/app/routes/pacientes.py:285-292 | when no two keys convert alike, every entry survives in order under its converted key |
| CamelCase.NombreCompleto | src/clinica_backend/app/routes/pacientes.py:280-282 | `nombre_completo` becomes `nombreCompleto` |
| CamelCase.InnerCapitalsLowered | src/clinica_backend/app/routes/pacientes.py:289 | `id_DNI` becomes `idDni` |
| CamelCase.DoubledUnderscore | src/clinica_backend/app/routes/pacientes.py:288-289 | `a__b` becomes `aB` |
| CamelCase.SnakeRoundTrip | src/clinica_backend/app/routes/pacientes.py:272-283 | for snake_case keys, converting to camelCase and back gives the key |
| CamelCase.CamelInjective | src/clinica_backend/app/routes/pacientes.py:285-292 | a key that converts like a snake_case key is that key when it is snake_case too, and reads back as it when it has no underscore |
| CamelCase.CamelDictGet | src/clinica_backend/app/routes/pacientes.py:285-292 | without collisions, each converted key holds its entry's value |
| CamelCase.NoCollisionOf | src/clinica_backend/app/routes/pacientes.py:285-292 | snake_case keys, plus plain keys that read back as no key, never collide |
| CamelCase.CamelDictSnake | src/clinica_backend/app/routes/pacientes.py:285-292 | for snake_case keys, every key reads back from the converted dict |
| Base.ColumnDict | src/clinica_backend/app/models/base.py:66-68 | one entry per column, in column order, holding that attribute's value |
| Base.ColumnDictKeys | src/clinica_backend/app/models/base.py:66-68 | the keys are the columns |
| Base.ColumnDictSpec | src/clinica_backend/app/models/base.py:66-68 | with distinct columns, the keys are distinct and each column gives its value; other keys are absent |
| Base.Updated | src/clinica_backend/app/models/base.py:102-104 | `update` never adds or removes attributes |
| Base.UpdatedSpec | src/clinica_backend/app/models/base.py:102-104 | no error iff no key names a read-only property. Then every attribute takes its last assigned value, and keys that are not attributes are ignored |
| Base.UpdatedStops | src/clinica_backend/app/models/base.py:102-104 | once the error is raised, later keys change nothing |
| Base.UpdatedAtError | src/clinica_backend/app/models/base.py:102-104 | the first key naming a property raises AttributeError, and the assignments before it stay done |
| Base.BaseModel.constructor | src/clinica_backend/app/models/base.py:11-37 | a model with its columns, attributes and read-only properties |
| Base.BaseModel.ToDict | src/clinica_backend/app/models/base.py:66-68 | `to_dict()`: the columns as keys, in order, with their values |
| Base.BaseModel.Update | src/clinica_backend/app/models/base.py:102-104 | the new attributes and the outcome are those of Updated on the old attributes |
| Responses.SuccessShape | src/clinica_backend/app/utils/response.py:27-33 | `success` first, then `data` when given, then `message` when given |
| Responses.SuccessResponseSpec | src/clinica_backend/app/utils/response.py:8-35 | success is true; `data` is present iff it is not None, and `message` iff it is truthy; no other key; the status is passed through |
| Responses.ErrorBodySpec | src/clinica_backend/app/utils/response.py:58-67 | the error dict holds code and message, and the details iff they are truthy |
| Responses.ErrorResponseSpec | src/clinica_backend/app/utils/response.py:38-69 | exactly `success: false` and `error`; the status is passed through |
| Responses.Defaults | src/clinica_backend/app/utils/response.py:8-38 | the defaults give `{success: true}` with 200, and code and message with 400 |
| Responses.SucceededSeparates | src/clinica_backend/app/utils/response.py:27-59 | a client reading `success` tells the envelopes apart |
| Validator.ValidatePastDate | src/clinica_backend/app/utils/validator.py:5-8 | the only error is the "future" message |
| Validator.ValidateFutureDate | src/clinica_backend/app/utils/validator.py:10-13 | the only error is the "past" message |
| Validator.DateValidatorsMeet | src/clinica_backend/app/utils/validator.py:5-13 | every date passes one of the checks; only today passes both; a date fails the past check exactly when it comes after every date that passes it |
| Validator.PastDateDownward | src/clinica_backend/app/utils/validator.py:5-8 | a date before one that passes also passes |
| Validator.MatchesEightDigitsSpec | src/clinica_backend/app/utils/validator.py:21 | `^\d{8}$` matches eight digits, or eight digits and a final newline |
| Validator.ValidateDniOrRucSpec | src/clinica_backend/app/utils/validator.py:15-22 | falsy values pass unchecked; a non-empty string passes iff it matches; every failure carries the DNI message |
| Validator.TrailingNewlineAccepted | src/clinica_backend/app/utils/validator.py:21 | '12345678\n' is accepted |
| Validator.ValidateDniStrictSpec | src/clinica_backend/app/utils/validator.py:15-22 | the corrected check accepts a non-empty string iff it is exactly eight digits; it agrees with the original except on nine-character strings |
| Validator.StrictRejectsNewline | src/clinica_backend/app/utils/validator.py:21-22 | the corrected check rejects '12345678\n' |
| FrontValidators.FirstMissing | src/clinica_frontend/modules/utils/validators.py:17-19 | none iff every field is present and truthy; otherwise the first field in order that is not |
| FrontValidators.GuardSpec | src/clinica_frontend/modules/utils/validators.py:21-36 | one check raises on error, fails with its message on false and goes on on true; a chain passes iff the check and the rest pass, and every failure has a message |
| FrontValidators.ChecksSpec | src/clinica_frontend/modules/utils/validators.py:21-36 | the five format checks pass iff each does |
| FrontValidators.FormatChecksSpec | src/clinica_frontend/modules/utils/validators.py:21-36 | the format checks pass iff the DNI, phone, year, month and day conditions hold |
| FrontValidators.ValidatePacienteDataSpec | src/clinica_frontend/modules/utils/validators.py:5-36 | (True, '') iff every check passes. The first missing field decides the message, and every failure names one |
| FrontValidators.DniCheckedFirst | src/clinica_frontend/modules/utils/validators.py:21-22 | a bad DNI is reported before anything else is checked |
| FrontValidators.NoDayPerMonthCheck | src/clinica_frontend/modules/utils/validators.py:27-36 | 31/2/1990 passes |
| FrontValidators.YearAsTextRaises | src/clinica_frontend/modules/utils/validators.py:27 | a year given as text raises TypeError |
| FrontValidators.YearTextRaises | src/clinica_frontend/modules/utils/validators.py:27 | comparing a text year with an integer raises TypeError |
| Formatters.GetOr | src/clinica_frontend/modules/utils/formatters.py:10-11 | `dict.get(k, default)`: the default iff the key is absent, and a present value even when it is None |
| Formatters.ParseIntText | src/clinica_frontend/modules/utils/formatters.py:16 | `int(str(i)) == i` |
| Formatters.DateTextReadsBack | src/clinica_frontend/modules/utils/formatters.py:16 | day/month/year splits at '/' into three texts that read back as the three integers |
| Formatters.NacimientoOf | src/clinica_frontend/modules/utils/formatters.py:16 | the first `int()` that raises decides; otherwise the text is day/month/year |
| Formatters.Cells | src/clinica_frontend/modules/utils/formatters.py:18-26 | the seven labels, in order |
| Formatters.FormatPacienteForDisplaySpec | src/clinica_frontend/modules/utils/formatters.py:5-26 | the row is built iff neither the district nor the date raises; each cell is the record's value, or 'N/A' when absent |
| Formatters.NacimientoSpec | src/clinica_frontend/modules/utils/formatters.py:14-16 | 'N/A' unless all three parts are truthy; integer parts give the unpadded day/month/year |
| Formatters.DateTextExample | src/clinica_frontend/modules/utils/formatters.py:16 | 5 March 1990 is '5/3/1990' |
| Formatters.DistritoNombreSpec | src/clinica_frontend/modules/utils/formatters.py:10-11 | no district gives 'N/A'; a dict gives its `nombre`; a present None raises AttributeError |

## Left out

**Outside effects:**
- Console output (`print`) in every tool is left out; it has no effect on the data.
- `jsonify` is left out: the envelopes are modelled as the dicts before serialisation.
- `date.today()` and `datetime.now(...)` (the `created_at` default) are parameters or opaque values, not clock readings.
- The query helpers are left out because they are database queries: `buscar_por_dni`/`buscar_por_nombre` in the model file and `buscar_por_Dni`/`buscar_por_nombre` in the routes file. The routes versions are declared `@staticmethod` with a `cls` parameter.
- The SQLAlchemy relationship loading and `__repr__` are left out. The district is a value present or absent on the patient.
- The Flask routes' HTTP handling and the marshmallow schemas are not part of this model. Only the validator functions are.

**Text and numbers:**
- TextPrep.AccentFold: NFKD followed by dropping non-ASCII is modelled for Latin-1 letters (accents, ñ, ç and the like) and as dropping every other non-ASCII character. The full Unicode decomposition table is not modelled.
- `\d`, `\w`, `str.upper()`, `str.title()` and `str.isdigit()` are modelled on ASCII. Unicode digits, letters and case mappings are not. (`\s` and `str.strip()` use the full `str.isspace()` set, Prelude.IsSpace.)
- Regex.AtCI: `(?i)` case-insensitive matching is modelled on ASCII. Python's `re.IGNORECASE` also lets 'ı' and 'İ' match I, 'ſ' match S and the Kelvin sign match K, so words such as DEUDA, UND/UNIDADES and JERINGAS spelled with those characters are not matched by the model.
- Formatters.ParseInt: `int()` on text accepts an optional sign and ASCII digits with surrounding white space. Underscores and Unicode digits are not modelled, and the record values carry no floats (`int(3.0)` is not modelled).
- Formatters.FormatPacienteForDisplaySpec: the row is modelled as a dict of `Values.Value`, which has no float or NaN case. The source's caller passes DataFrame rows (`df.apply(..., axis=1)`), where a field that one record lacks or holds as None, while other records have it, arrives as NaN. NaN is truthy, so `int(NaN)` raises ValueError in the birth date and `NaN.get` raises AttributeError in the district; neither path is modelled, and the same holds for Formatters.FormatPacienteForDisplay, Formatters.NacimientoOf and Formatters.DistritoNombre.
- FrontValidators.InRange: `Values.Value` has no float case, so a year, month or day that arrives as a float is not modelled; the source compares such a float with the bounds without a TypeError.
- Numeric.ParseCleaned: `pd.to_numeric` results are exact rationals (`Num`), not IEEE doubles, so rounding of long decimals is not modelled.
- Frame.AsText: floats render as `<n>.0` when integral and as their exact decimal expansion, up to a cap, otherwise. Python's shortest-repr and exponent forms are not modelled.
- Pandas dtypes are represented by the cell kinds only. The object/Int64/float64 distinction is the `Cell` constructor.
- Quantities.UnitsColumn: a digit group beyond the Int64 range makes the source's `.astype('Int64')` raise, which aborts `extraer_unidades`; the model returns the unbounded integer instead.

**Pandas structure:**
- A DataFrame has no index labels. Rows are positions, as in the source's default RangeIndex.
- Numeric.LimpiarNumCols: `limpiar_num_cols` returns None in the source. The model states only its effect on the frame, which it mutates in place.
- `convertir_a_fechas`, `convertir_a_categoria` and `desglosar_fecha` in `src/limpieza_utils.py` are dtype conversions to datetime and category, and are not part of this model.
- A `pd.Series` returned by `format_paciente_for_display` is its list of (label, value) entries.

**Structure of the model:**
- Routes: the routes file's `Paciente` shares the `Paciente` value and the age, alert and birth-date functions of the model class, because the two bodies compute the same thing. The model class's `try/except TypeError` around the birthday comparison can never fire on integer parts.
- Catalogo: the catalogue's patterns are modelled as data, with lemmas about the brands they accept. The classifier uses its own 28 patterns from `extraer_producto_principal`, as the source does.

## Findings

| source | as written | input that shows it | evidently intended | confidence | as-written member | corrected member |
|---|---|---|---|---|---|---|
| src/clinica_backend/app/models/paciente.py:215 | `to_dict_completo` calls `self._to_camel_case`, which neither this class nor `BaseModel` defines | any patient | return the dict with camelCase keys, as the routes file's `_to_camel_case` does | not executed | PacienteModel.ToDictCompletoRaises | PacienteModel.ToDictCompletoSpec |
| src/clinica_backend/app/utils/validator.py:21 | `re.match(r'^\d{8}$', value)`: `$` also matches before a final newline | '12345678\n' | exactly eight digits, as the error message says | not executed | Validator.TrailingNewlineAccepted | Validator.ValidateDniStrictSpec |
