# HojaInfoPtes: a verified model of the leaflet parser, the PDF layout planner and the attribute escaper

HojaInfoPtes is a browser app that builds a patient information leaflet for a medicine. This Dafny project models three parts of it and proves properties about them:

- **The section parser** (`js/parser.js`). It splits pasted plain or Markdown text into nine fixed fields. It finds title lines by keyword and tolerates repeated titles. It can read the active ingredient from the title line itself, and it warns about every missing field.
- **The PDF layout planner** (`js/pdf.js`). It decides whether the sections fit in two pages one under the other. If they do not, it pairs short neighbouring sections side by side:
  1. it collects candidate pairs;
  2. it measures each pair with a given half-width height;
  3. it greedily selects disjoint pairs, largest saving first, after a stable sort;
  4. it simulates the page count;
  5. it escalates once to a larger threshold when more than two pages are still needed;
  6. it builds an order-preserving plan.

  This part also covers the name the PDF is saved under.
- **`UI._escapeAttr`** (`js/ui.js`). It escapes `& " ' < >` for HTML attributes.

Modules, one per file:

| file | module | what it holds |
|---|---|---|
| `wrappers.dfy` | `Wrappers` | `Option` |
| `jstext.dfy` | `JsText` | the JavaScript string built-ins the core relies on: `trim`, `split`/`join` on one character, `includes`, `toLowerCase`, and `length` counted in UTF-16 code units |
| `markdown.dfy` | `Markdown` | `_stripMarkdown`, one replacement step at a time |
| `parser.dfy` | `Parser` | `SECTION_PATTERNS`, `_matchSectionTitle`, `parseText` (as imperative methods proved against functions), `_keyToLabel`, and the warning texts |
| `escape.dfy` | `Escape` | `_escapeAttr` as its chain of five replacements, proved equal to a per-character map, with its inverse |
| `pdf_pairs.dfy` | `PdfPairs` | `_measurePairs` and `_selectBestPairs` |
| `pdf_plan.dfy` | `PdfPlan` | `_buildPlanFromPairs` and `_simulateLayout` |
| `pdf_layout.dfy` | `PdfLayout` | `_planDualColumnLayout`, the fit decision in `download`, and the file name |

The JavaScript loops are modelled as Dafny methods with loops. Each method is proved equal to a recursive specification function, and the properties are proved about those functions:

- the `for` loop of `parseText` that records section starts;
- the `for` loop that fills `fields`;
- the `for` loop over all keys that adds missing fields;
- the nested loops of `_matchSectionTitle`;
- the loop of `_measurePairs`;
- the loop over the sorted copy in `_selectBestPairs`;
- the `while` loops of `_simulateLayout` and `_buildPlanFromPairs`;
- the candidate loops of `_planDualColumnLayout`.

Pure expression chains are modelled as functions:

- `_stripMarkdown` and `_escapeAttr`;
- the fit decision;
- the file name.

Section heights are exact reals in millimetres. The rendering is represented by given numbers: each section's full-width height `heights[i]` and its half-width height `half[i]`.

## Model

| member | source | states |
|---|---|---|
| JsText.Trim | js/parser.js:68 | `trim` returns the slice left after removing leading and trailing white space: the removed ends are blank, the result neither starts nor ends with white space, and it is empty exactly when the input is blank |
| JsText.TrimIdempotent | js/parser.js:94 | trimming a trimmed text changes nothing |
| JsText.Split | js/parser.js:61 | `split('\n')` gives at least one piece, no piece holds the separator, and joining the pieces with it gives back the text |
| JsText.SplitJoin | js/parser.js:61 | splitting a join of separator-free pieces gives back the pieces |
| JsText.Contains | js/parser.js:147 | `includes` holds exactly when the keyword occurs at some position |
| JsText.ToLowerCase | js/parser.js:139 | lower-casing keeps the length and maps each character on its own |
| JsText.ToLowerCaseIdempotent | js/parser.js:139 | lower-casing twice is lower-casing once |
| JsText.Utf16Length | js/parser.js:142 | the JavaScript length is between the number of code points and twice it |
| Markdown.StripEmphasis | js/parser.js:165-166 | removing emphasis markers never lengthens the line |
| Markdown.RemoveEmoji | js/parser.js:168 | the result holds only characters of the input and no character of the five emoji ranges |
| Markdown.StripNumbering | js/parser.js:170 | removing a leading `1.` or `1)` adds no character |
| Markdown.StripBullet | js/parser.js:172 | removing a leading bullet adds no character |
| Markdown.RemovePunctuation | js/parser.js:174 | the result holds none of `¿ ? ¡ !` and only characters of the input |
| Markdown.StripTrailingColon | js/parser.js:176 | the result is a prefix of the input |
| Markdown.CollapseSpaces | js/parser.js:178 | no two white-space characters are adjacent afterwards, only a space is added, and a line without emoji and decorative punctuation stays without them |
| Markdown.Tidy | js/parser.js:178-179 | after collapsing and trimming, white space is single and never at either end, and no emoji or decorative punctuation appears |
| Markdown.StripSymbols | js/parser.js:168-174 | the middle replacements (emoji, leading number, leading bullet, `¿?¡!`) leave no emoji and none of `¿ ? ¡ !` |
| Markdown.StripMarkdown | js/parser.js:160-180 | a cleaned line has no emoji, none of `¿ ? ¡ !`, no run of two white-space characters and no white space at either end |
| Markdown.StripMarkdownPlain | js/parser.js:160-180 | a line with no marker, emphasis, emoji, `¿?¡!`, trailing colon, doubled or outer white space is left as it is |
| Parser.AllKeys | js/parser.js:113 | the keys of `SECTION_PATTERNS` are the nine fields in table order |
| Parser.FieldOrderExactlyOnce | js/parser.js:9-46 | the table holds nine fields, every field, each once |
| Parser.KeyToLabelInjective | js/parser.js:217-230 | different fields have different labels |
| Parser.FirstMatchIsEarliest | js/parser.js:145-153 | the match is the earliest pattern with a keyword inside the line, and there is none exactly when no pattern has one |
| Parser.MatchSectionTitle | js/parser.js:137-154 | `_matchSectionTitle` returns nothing for an empty cleaned line or one longer than 80 code units, and otherwise the first pattern whose keyword it contains |
| Parser.FindKey | js/parser.js:145-153 | the nested pattern and keyword loops with early return find the first matching pattern |
| Parser.FirstMatchAt | js/parser.js:145-153 | when pattern `p` is the first with a keyword in the line, the match is its field |
| Parser.KeywordsAbsent | js/parser.js:146-147 | no keyword of a list occurs when each holds a letter whose lower case the line lacks |
| Parser.PrincipioActivoAbsent | js/parser.js:12 | a line without p and m matches no `principio_activo` keyword |
| Parser.QueEsParaQueAbsent | js/parser.js:16 | a line without p, q and "indicaciones" matches no `que_es_para_que` keyword |
| Parser.AdministracionAbsent | js/parser.js:20 | a line without p and m matches no `administracion` keyword |
| Parser.OlvidoDosisAbsent | js/parser.js:24 | a line without q and l matches no `olvido_dosis` keyword |
| Parser.FirstFourPatternsAbsent | js/parser.js:9-26 | a line without p, q, m, l and "indicaciones" matches none of the first four patterns |
| Parser.TitleKeyPrefersEarlierPattern | js/parser.js:145-153 | "Interacciones y efectos adversos" is a title for `efectos_adversos`, the earlier of the two patterns it contains |
| Parser.NotRule | js/parser.js:72 | a line that does not begin with `-`, `*` or `_` is not a horizontal rule |
| Parser.Titles | js/parser.js:67-74 | one title per line, computed line by line |
| Parser.StartsOfValid | js/parser.js:67-81 | recorded starts lie on increasing lines of the text, and each field has at most one |
| Parser.StartsOfFirstTitles | js/parser.js:74-79 | each start is at a title line for its field, and at the first such line |
| Parser.StartsOfAllRecorded | js/parser.js:74-79 | every field some line is titled for has a start |
| Parser.StartsOfFacts | js/parser.js:67-81 | the three facts above together |
| Parser.StartLineIffFirstTitle | js/parser.js:77-79 | a line opens a section exactly when it is a title line and no earlier line is a title for the same field, so a repeated title stays inside the section before it |
| Parser.RecordedIffTitled | js/parser.js:74-79 | a field has a start exactly when some line is titled for it |
| Parser.RecordSectionStarts | js/parser.js:65-81 | the recording loop returns the starts of the specification |
| Parser.CleanContent | js/parser.js:186-212 | `_cleanContent` gives an empty result for an empty text and a trimmed result otherwise |
| Parser.SplitSeparators | js/parser.js:101 | splitting on `[:：\-–—]\s*` gives more than one piece exactly when the line holds a separator, no piece holds one, and the first piece is the text before the first separator |
| Parser.SplitSeparatorFree | js/parser.js:101 | a line without a separator is one piece, the line itself |
| Parser.SplitAtFirst | js/parser.js:101 | the pieces are the text before the first separator followed by the pieces of the text after that separator and the white space behind it |
| Parser.ValueAfterFirstSeparator | js/parser.js:101-103 | for a cleaned line `p` + separator + white space + `v` with no separator in `p`, the value is the later pieces of `v` joined with `": "` and trimmed, and it is `v` trimmed when `v` holds no separator |
| Parser.SameLineValueFacts | js/parser.js:98-106 | a value read from the title line is trimmed, and it is non-empty only when the cleaned title line holds a separator |
| Parser.SameLineValueOfPlainLine | js/parser.js:100-103 | a title line that `_stripMarkdown` and `trim` leave alone, written `p` + separator + white space + `v` with no separator in `p` or `v`, has the value `v` trimmed |
| Parser.SectionValueFacts | js/parser.js:86-109 | each section value is trimmed and, except for `principio_activo`, is the cleaned content of the lines up to the next start |
| Parser.SectionValues | js/parser.js:86-110 | one value per recorded start |
| Parser.FillUpToFacts | js/parser.js:84-110 | after the filling loop, `fields` has exactly the recorded keys, each with its own section's value |
| Parser.KeysUpToCount | js/parser.js:77-86 | distinct starts fill as many fields as there are starts |
| Parser.FillSections | js/parser.js:84-110 | the filling loop returns the map of the specification |
| Parser.MissingTextLabel | js/parser.js:119 | a missing-section warning shows the field's label between fixed quotes |
| Parser.MissingTextInjective | js/parser.js:119 | warnings about different fields have different texts |
| Parser.Missing | js/parser.js:116-117 | the missing keys are exactly the table keys not detected |
| Parser.MissingCount | js/parser.js:116-122 | missing and detected table keys add up to the number of table keys |
| Parser.MissingFromAll | js/parser.js:113-122 | with every field in the table, the missing count is nine minus the detected count |
| Parser.Warnings | js/parser.js:119 | one missing-section warning per missing key, in order |
| Parser.EmptyFields | js/parser.js:120 | each missing key gets an empty value |
| Parser.AddMissing | js/parser.js:116-122 | the loop over all keys adds each missing field with an empty value and one warning, in table order |
| Parser.AddMissingStep | js/parser.js:116-122 | one iteration of that loop adds the key's warning and empty field only when the key is missing |
| Parser.SectionStarts | js/parser.js:65-81 | the starts of a text are valid for its lines |
| Parser.ParseBlank | js/parser.js:57-59 | a blank text gives no fields and the single warning "El texto está vacío.", and only a blank text does |
| Parser.CompleteFields | js/parser.js:113-122 | after step 3, every field is present, detected ones keep their value, and the others are empty |
| Parser.CompleteWarningCount | js/parser.js:113-127 | the warning count is 9 minus the detected count, plus one when nothing was detected |
| Parser.CompleteWarningsAt | js/parser.js:116-127 | after the optional general warning, the warnings are the missing keys in table order |
| Parser.CompleteWarnsOnlyMissing | js/parser.js:117-119 | only undetected fields are warned about |
| Parser.CompleteWarnsEveryMissing | js/parser.js:117-119 | every undetected field is warned about |
| Parser.CompleteWarnsNoSections | js/parser.js:125-127 | the general warning is present exactly when no section was detected |
| Parser.ParseFieldsComplete | js/parser.js:84-122 | a non-blank text yields all nine fields, empty when their section is missing |
| Parser.SingleLine | js/parser.js:61 | a text without a line break is one line |
| Parser.StartsOfOneTitle | js/parser.js:74-79 | one title line records one start, on that line |
| Parser.SingleTitleLineStarts | js/parser.js:61-81 | a one-line text that is a title is not blank, and its line opens its only section |
| Parser.ParseSingleTitleLine | js/parser.js:84-106 | a one-line title text gives its field an empty value, except `principio_activo`, which gets the value written after the separator on the title line |
| Parser.IbuprofenoValue | js/parser.js:99-103 | the value written on "PRINCIPIO ACTIVO: Ibuprofeno" is "Ibuprofeno" |
| Parser.ParseSameLineValue | js/parser.js:97-103 | parsing "PRINCIPIO ACTIVO: Ibuprofeno" gives `principio_activo` the value "Ibuprofeno", whatever `_cleanContent` does |
| Parser.ParseSectionValues | js/parser.js:86-110 | each detected field holds its section's value |
| Parser.ParseWarnings | js/parser.js:113-127 | a non-blank text yields 9 − detected warnings (plus one when nothing was detected), a missing-section warning exactly for each undetected field, and the general warning exactly when nothing was detected |
| Parser.ParseText | js/parser.js:56-130 | `parseText` returns the result of the specification |
| Escape.ReplaceChar | js/ui.js:603-607 | a global replacement of one character leaves none of it unless the replacement holds it, and adds only characters of the replacement |
| Escape.ReplaceCharAppend | js/ui.js:603-607 | a global replacement distributes over concatenation |
| Escape.EscapeAttr | js/ui.js:601-608 | a missing or empty text gives the empty string, and the output holds none of `< > " '` |
| Escape.Entity | js/ui.js:603-607 | a character becomes an entity of several characters exactly when it is one of the five special characters |
| Escape.ChainOfChar | js/ui.js:603-607 | the five replacements applied to one character give its entity |
| Escape.ChainIsPerCharacter | js/ui.js:602-607 | the chain of five replacements equals the per-character map, because `&` goes first and no later entity holds a later special character |
| Escape.EscapeEachHasNoMarkup | js/ui.js:603-607 | the per-character map leaves none of `< > " '` |
| Escape.AmpersandsBeginEntities | js/ui.js:603-607 | every `&` of the output begins one of the five entities |
| Escape.EscapeEachLength | js/ui.js:602-607 | the output is at least as long as the input, and exactly as long when the input has no special character |
| Escape.UnescapeEscapeEach | js/ui.js:602-607 | decoding the five entities gives back the input |
| Escape.EscapeAttrRoundTrip | js/ui.js:601-608 | for a present text: the round trip, the length bounds and the entity-start property of `_escapeAttr` |
| PdfPairs.Max | js/pdf.js:405 | `Math.max` is one of its arguments and at least both |
| PdfPairs.Measure | js/pdf.js:403-408 | a pair's height is the taller of its two half-width heights, and its saving plus that height is the sum of the full-width heights |
| PdfPairs.MeasurePairs | js/pdf.js:397-411 | the loop measures every pair, in the order of the pairs |
| PdfPairs.Insert | js/pdf.js:418 | inserting keeps every measurement |
| PdfPairs.SortBySaving | js/pdf.js:418 | the sorted copy is a permutation of the input |
| PdfPairs.InsertOrdered | js/pdf.js:418 | inserting into a list sorted by decreasing saving keeps it sorted |
| PdfPairs.SortOrdered | js/pdf.js:418 | the sorted copy is in non-increasing saving order |
| PdfPairs.SortStable | js/pdf.js:418 | measurements of equal saving keep their relative order, as JavaScript's stable sort does |
| PdfPairs.ClaimedMembers | js/pdf.js:420-430 | a block is claimed exactly when some selected pair holds it |
| PdfPairs.Greedy | js/pdf.js:420-430 | the greedy pass keeps only measurements of its input with positive saving |
| PdfPairs.GreedyDisjoint | js/pdf.js:425-429 | no two selected pairs share a block |
| PdfPairs.GreedyOrdered | js/pdf.js:423-430 | over a sorted input the selection is in non-increasing saving order |
| PdfPairs.GreedyMaximal | js/pdf.js:423-430 | over a sorted input, every measurement with positive saving that was not selected shares a block with a selected pair that saves at least as much |
| PdfPairs.SelectBestPairs | js/pdf.js:416-433 | the loop over the sorted copy, with its two `continue`s and the `paired` set, returns the selection of the specification |
| PdfPairs.SelectBestFacts | js/pdf.js:416-433 | `_selectBestPairs` returns a sub-multiset of its input, with positive savings, pairwise disjoint, in non-increasing saving order, and maximal as above |
| PdfPlan.PlanFromWellPlaced | js/pdf.js:493-504 | every single row names an untaken block, and every pair row names a block with a stored pair and the block after it |
| PdfPlan.BuildPlanFromPairs | js/pdf.js:481-507 | the loops building `pairedSet`, `pairMap` and `plan` return the plan of the specification |
| PdfPlan.Range | js/pdf.js:493 | `a, …, n − 1` |
| PdfPlan.PlanFromCovers | js/pdf.js:493-504 | for disjoint neighbour pairs, the walk from an unstraddled block lists every later block exactly once and in order |
| PdfPlan.PlanFromPairCount | js/pdf.js:494-496 | the walk emits one pair row per selected pair beginning at or after its start |
| PdfPlan.BuildPlanFacts | js/pdf.js:481-507 | for disjoint neighbour pairs, flattening the plan gives 0…n−1, each once and in order, and there are as many pair rows as selected pairs, so the walk from block 0 never takes the "second of a pair" branch |
| PdfPlan.AlignedClaimedIsFirst | js/pdf.js:497-499 | in the walk, a taken block that no pair straddles begins a stored pair, so the pair branch is taken there and never the "second of a pair" branch |
| PdfPlan.BuildPlanPairs | js/pdf.js:494-496 | a pair row `[l, r]` is in the plan exactly when a selected pair is `(l, r)` |
| PdfPlan.PairRowOf | js/pdf.js:494-496 | every selected pair at or after an unstraddled block becomes a pair row |
| PdfPlan.RowHeights | js/pdf.js:455-465 | one height per row |
| PdfPlan.SimulateLayout | js/pdf.js:438-475 | the simulation loop returns the page count of the specification: page 1 starts with `fullPageSpace − firstPageSpace` used, and a new page opens exactly when `usedY + blockH > fullPageSpace` |
| PdfPlan.WalkStep | js/pdf.js:452-472 | one step of the simulation loop: a pair row, a skipped second block, or a single row |
| PdfPlan.PagesForStep | js/pdf.js:467-471 | a row goes on the current page when it fits, and otherwise opens a page and starts it |
| PdfPlan.PagesForBounds | js/pdf.js:448-474 | each row opens at most one page |
| PdfPlan.SimulateBounds | js/pdf.js:448-474 | the simulated count is at least 1 and at most 1 plus the number of rows |
| PdfPlan.PagesForOnePage | js/pdf.js:467-471 | rows that fit together below the used height open no page |
| PdfPlan.PagesForCapacity | js/pdf.js:467-471 | when no row is taller than a page, no page holds more than a page: the used height plus the rows is at most a page per page counted |
| PdfLayout.SpaceAfterHeader | js/pdf.js:175 | page 1 keeps 264 mm minus the header and its 2 mm gap |
| PdfLayout.Singles | js/pdf.js:185 | one single row per section, in order |
| PdfLayout.ShortPairsFacts | js/pdf.js:343-349 | the candidates are exactly the pairs `(i, i + 1)` of existing sections both at most the threshold high and not excluded, in ascending `i` |
| PdfLayout.ShortPairsInBounds | js/pdf.js:343-349 | the candidates name existing sections |
| PdfLayout.CollectShortPairs | js/pdf.js:338-349 | the candidate loop collects the candidates of the specification; the escalation loop at lines 367-379 is the same loop with a larger threshold and the first candidates excluded |
| PdfLayout.PlanDualColumnLayout | js/pdf.js:333-392 | `_planDualColumnLayout` returns the plan of the specification: all single rows without candidates, and otherwise the greedy selection, escalated once at 55% when the simulation needs more than two pages |
| PdfLayout.EscalationAddsNewPairs | js/pdf.js:366-384 | the escalation adds exactly the neighbour pairs both at most 55% of a page high that were not candidates already |
| PdfLayout.MeasureShortPairs | js/pdf.js:357-383 | measuring candidates keeps their neighbouring, short sections |
| PdfLayout.SelectFromShort | js/pdf.js:360-386 | selecting among short neighbour pairs gives disjoint short neighbour pairs |
| PdfLayout.PlanFromShort | js/pdf.js:386-391 | a plan from such a selection covers the sections in order and pairs only short neighbours |
| PdfLayout.SinglesCover | js/pdf.js:185 | single rows list every section once and in order |
| PdfLayout.PlanDualFacts | js/pdf.js:333-392 | the planner's plan lists every section exactly once and in order, pairs only `(i, i + 1)` with both sections at most 55% of a page high, and is all single rows when no candidate exists |
| PdfLayout.PlanLayoutFacts | js/pdf.js:175-192 | whatever the heights, the plan covers the sections in order and pairs only short neighbours, and it is all single rows when the fit test passes |
| PdfLayout.PlanFromNoPairs | js/pdf.js:493-504 | without pairs the walk emits one single row per section |
| PdfLayout.SinglesRowHeights | js/pdf.js:455-465 | single rows are as high as their sections |
| PdfLayout.SimulateSingles | js/pdf.js:438-475 | without pairs the simulation counts the pages of the sections' own heights |
| PdfLayout.FitTestNecessary | js/pdf.js:175-179 | if no section is taller than a page and single rows take at most two pages, then the fit test passes |
| PdfLayout.FitTestNotSufficient | js/pdf.js:175-179 | the fit test can pass while single rows need three pages: below a 40 mm header, 200, 100 and 180 mm |
| PdfLayout.SanitizeFacts | js/pdf.js:307 | the sanitised name has the same JavaScript length, holds only kept characters and `_`, and is unchanged exactly when every character is kept or already `_` |
| PdfLayout.SanitizeBasicPlane | js/pdf.js:307 | without characters outside the Basic Multilingual Plane, each character is kept when it is a name character and otherwise becomes one `_` |
| PdfLayout.SanitizeIdempotent | js/pdf.js:307 | sanitising twice is sanitising once |
| PdfLayout.FileName | js/pdf.js:307 | the file name starts with `hoja_` and ends with `.pdf` |
| PdfLayout.FileNameMiddle | js/pdf.js:307 | between them is the sanitised active ingredient, or `medicamento` when it is missing or empty, with the same JavaScript length |

## Left out

- Rendering and I/O are not modelled: html2canvas, jsPDF, the CDN loading, the toast and loading overlay, and the DOM. Section heights and half-width heights are parameters, and the drawing loop at js/pdf.js:197-302 is not part of this model.
- The px→mm conversion is floating point and is not modelled. Heights are exact reals, so the model has no rounding.
- The `async`/`await` sequencing of the measurements is not modelled. It only serialises rendering, so measurements are a pure function of the given heights.
- Parser.CleanContent: the chain of regular expressions in `_cleanContent` is a parameter `rewrite`. The model keeps its empty-text guard and its final `trim`, and says nothing about the rewriting itself.
- JsText.ToLowerCase lower-cases ASCII and Latin-1 capitals only, which covers the Spanish keywords and titles. Other scripts are left as they are.
- Markdown.StripEmphasis: the lazy emphasis replacements are modelled step by step, but the contract states only that the line does not grow. Which text survives is not stated.
- Parser.KeyToLabelInjective: the `|| key` fallback of `_keyToLabel` is not modelled, because every field has a label and the fallback cannot be reached.
- PdfLayout.PlanDual does not recompute the page count after the escalation; the method PdfLayout.PlanDualColumnLayout does, as js/pdf.js:387 does, and neither uses it.
- PdfLayout.CollectShortPairs: `measuredKeys` holds the pairs themselves rather than the strings `"i-j"`. The two are in one-to-one correspondence.
- PdfLayout.CollectShortPairs models both candidate loops as one method. The first loop reads a precomputed `isShort` array, and the method does too.
- Nothing is claimed about the total saving after the escalation. The selection is simply re-run over the larger pool, and it may save less than the first pass.
- The HTML builders `_buildSectionHtml`, `_buildScheduleHtml` and `_buildAdviceHtml`, and the escapers `_esc` and `_escapeHtml`, are not part of this model. All of them rely on the DOM.
- js/storage.js, js/config.js, js/app.js and the rest of js/ui.js are not part of this model. They are I/O and DOM wiring.
