# top-traffic-list-taiwan: a verified model of the record extraction and duplicate clustering

The repository builds lists of popular Taiwanese websites from three public rankings. This project models the three places in its scripts that hold real decision logic, and proves properties of them:

- **AhrefsTop table extraction** (`fetch-ahrefs.js`):
  - `decodeHtmlEntities` replaces six HTML entities in a fixed order.
  - `convertTrafficToK` reads a traffic figure such as `80.4M` as a whole number of thousands.
  - `parseTable` finds the first `<tbody` … `</tbody>` span of the downloaded page. It walks that span's `<tr>` rows in order and collects one `{rank, website, category, search_traffic_K}` record per complete row.
- **Duplicate clustering** (`check-duplicates.js`):
  - `normalizeWebsite` lower-cases a host name, trims it and drops one leading `www.`.
  - The body of `checkDuplicates` groups the Tranco records by normalized name in an insertion-ordered map.
  - It keeps the names shared by two or more records and sorts them by name.
  - It reports `total`, `unique` and `duplicates` counts with the sorted list.
- **Tranco `.tw` filter** (`fetch-tranco.js`, the loop inside `main`): this loop is lifted into a method from the CSV text to the list of `{rank, domain, url}` records.
  - It keeps every `rank,domain` line whose trimmed domain ends in `.tw`.

## Modules

| file | module | what it holds |
|---|---|---|
| `wrappers.dfy` | `Wrappers` | `Option` and `Result` |
| `text.dfy` | `Text` | The JavaScript string operations the scripts use, on ASCII: `toLowerCase`, `toUpperCase`, `trim`, `indexOf`, `startsWith`, `endsWith`, `split`/`join`, digit runs, code-point order. |
| `traffic.dfy` | `Traffic` | `convertTrafficToK`, with `parseFloat` on exact decimals and `Math.round` as rounding half up |
| `entities.dfy` | `Entities` | `decodeHtmlEntities` as six global replacements in sequence |
| `ahrefs_table.dfy` | `AhrefsTable` | `parseTable` as a method with a `while` loop, specified by the function `TableOf` |
| `duplicates.dfy` | `Duplicates` | `normalizeWebsite` and the two loops and the sort of `checkDuplicates` |
| `tranco.dfy` | `Tranco` | `parseInt` and the CSV filter loop |

### How the imperative parts are modelled

- Each source loop is a Dafny `method` with the same loop. Its postcondition ties the result to a specification function, and the lemmas state the properties of that function. `Emitted` and `FilterSites` are defined from the back; `TableOf`, `Outcomes` and `Collect` recurse from the front, one row at a time.
  - `ParseTable` keeps the position of the global regular expression (`lastIndex`) in a local variable. Its one-row loop body is the method `ParseRowStep`.
  - `GroupByName` keeps the `Map` as a Dafny `map` plus the sequence of its keys in insertion order, which is what `entries()` walks.
  - `CheckDuplicates` runs the second loop over that key order.
  - `FilterTaiwan` has the `for ... of` loop with its `continue` skips.
- `GroupByName` takes the normalizer as a function parameter, and `CheckDuplicates` passes `NormalizeWebsite`.
- The regular expressions of `parseTable` are modelled as deterministic scanners. Each finds the leftmost match, as `String.prototype.match` and `RegExp.prototype.exec` do.
  - `<tr[^>]*>([\s\S]*?)<\/tr>` ends the row at the first `</tr>` after the first `>` (`RowAt`).
  - The row pattern at one position is stated as text: `<tr`, its tag up to the first `>`, the body, and the first `</tr>` after it (`RowAtMatch`).
  - The rank pattern needs `<td`, the first `>`, a run of digits and `</td>` (`RankAt`, `RankAtMatch`). `match` returns the group at the first position where it matches (`FindRankLeftmost`).
  - The two link patterns, with their greedy `[^>]*` before `href`, try the last `href` candidate of an anchor first and back off towards the first (`LinkAt`, `LinkBacktrack`).
  - The traffic pattern's lazy `[\s\S]*?` takes the first `<span>` after the tag's end whose content is in the grammar (`SpanAtMatch`, `SpanFromFirst`, `TdSpanAtFirst`). The scanner tries only the leftmost `<td`. A later `<td` closes its tag no earlier, so when the leftmost `<td` finds no span, no later one does (`TdSpanAtLater`). The result is therefore the leftmost match (`TrafficSpanLeftmost`).

### Behaviour that follows the code rather than its comments

- A traffic figure with no unit letter (`"500"`) matches the pattern but makes `convertTrafficToK` throw. A throw aborts the whole `parseTable` call (`ConvertThrowsIffUnitless`, `ConvertUnitlessExample`, `ParseRowAbort`, `CollectSpec`).
- A figure with an unknown letter such as `"3Q"` does not match the pattern and gives 0. It does not throw (`ConvertZeroExamples`).
- `"1.2K"` gives 1, not the 1.2 the comment at fetch-ahrefs.js:74 shows (`ConvertKiloExample`).
- Only the category is entity-decoded. The website text is only trimmed, so it may be empty after trimming or hold an entity (`ParseRow`, `CategoryOf`, `TableRecordsFromRows`).
- `normalizeWebsite` is not idempotent: `"www.www.x"` becomes `"www.x"`, and a second call gives `"x"` (`NormalizeNotIdempotent`). It is stable only on names it leaves canonical (`NormalizeStable`).
- `decodeHtmlEntities` decodes `&amp;` first, so `"&amp;lt;"` becomes `"<"` (`DecodeAmpLt`).

## Model

| member | source | states |
|---|---|---|
| Text.ToLower | check-duplicates.js:24 | `toLowerCase` on ASCII: same length, and each character is lower-cased one by one |
| Text.ToUpper | fetch-ahrefs.js:91 | `toUpperCase` on ASCII: same length, and each character is upper-cased one by one |
| Text.LowerChar | check-duplicates.js:24 | one character lower-cased: never upper case, white space stays white space, and a character that is not an upper-case letter is kept |
| Text.UpperChar | fetch-ahrefs.js:91 | one character upper-cased: never a lower-case letter, and a character that is not one is kept |
| Text.Trim | check-duplicates.js:24 | `trim`: the result is no longer than the input, and neither of its ends is white space |
| Text.TrimStart | fetch-tranco.js:92 | dropping leading white space: no longer than the input, and the result does not start with white space |
| Text.TrimEnd | check-duplicates.js:24 | dropping trailing white space: no longer than the input, keeps the first character, and does not end with white space |
| Text.TrimStartIdem | fetch-tranco.js:92 | dropping leading white space twice drops nothing more |
| Text.TrimStartBefore | fetch-tranco.js:86 | leading white space stops at the first non-space character, wherever the text is cut |
| Text.TrimEndAfter | fetch-tranco.js:86 | trailing white space stops at the last non-space character, wherever the text is cut |
| Text.TrimEndCons | fetch-tranco.js:86 | trailing white space of a text with one more character in front |
| Text.TrimTrimEnd | fetch-tranco.js:86-93 | trimming the end first does not change `trim` |
| Text.TrimStartDrops | fetch-tranco.js:92 | what leading-space skipping drops is a prefix made only of white space |
| Text.TrimEndDrops | check-duplicates.js:24 | what trimming at the end drops is a suffix made only of white space |
| Text.TrimInfix | check-duplicates.js:24 | trimming adds no character |
| Text.TrimNoop | fetch-tranco.js:86 | a string with no white space at either end is unchanged by `trim` |
| Text.StartsWith | check-duplicates.js:27 | `startsWith('www.')`: true exactly when the name is `www.` followed by some text |
| Text.EndsWith | fetch-tranco.js:99 | `endsWith('.tw')`: true exactly when the domain is some text followed by `.tw` |
| Text.IndexOf | fetch-ahrefs.js:115-121 | `indexOf(pat, from)`: the first occurrence at or after `from`, and None exactly when there is none |
| Text.IndexOfExtend | fetch-ahrefs.js:121 | appending text after a found occurrence does not move it |
| Text.IndexOfMonotone | fetch-ahrefs.js:121 | searching from an earlier position finds an occurrence no later |
| Text.IndexOfFirst | fetch-ahrefs.js:115-121 | an occurrence with none before it, from `from` on, is what `indexOf` returns |
| Text.OccursConcat | fetch-ahrefs.js:129 | an occurrence of `a + b` is an occurrence of `a` followed right away by one of `b`, and back |
| Text.OccursChar | fetch-ahrefs.js:129 | a one-character pattern occurs exactly where that character is |
| Text.DigitsValue | fetch-tranco.js:92 | the value of a digit string, read base 10; the empty run is 0 |
| Text.Span | fetch-tranco.js:92 | the longest prefix whose characters all pass the test: every character passes, and the next one does not |
| Text.DigitSpan | fetch-tranco.js:92 | the longest run of decimal digits at the front |
| Text.SpanConcat | fetch-tranco.js:92 | the run of a prefix whose characters pass, followed by one that fails, is that prefix |
| Text.Split | fetch-tranco.js:82 | `split` with one separator character: at least one piece, and no piece holds the separator |
| Text.SplitFirst | fetch-tranco.js:89 | a split ends its first piece at the first separator |
| Text.SplitNoSep | fetch-tranco.js:89-90 | a text without the separator splits into itself alone |
| Text.JoinCons | fetch-tranco.js:82 | joining puts the first piece, the separator and the rest joined |
| Text.JoinSplit | fetch-tranco.js:82 | joining the pieces of a split with the separator gives the text back |
| Text.SplitJoin | fetch-tranco.js:89 | splitting joined separator-free pieces gives the pieces back |
| Text.Less | check-duplicates.js:79 | code-point order, which agrees with `localeCompare` on lower-case a–z, 0–9, `.`, `-`: true exactly when the first name is a proper prefix of the second or has the smaller character at their first difference (`LexBelow`) |
| Text.LexBelowCons | check-duplicates.js:79 | for non-empty names, a differing first character decides the order, and an equal one passes the question to the rest |
| Text.LessIrreflexive | check-duplicates.js:79 | the code-point order used for `localeCompare` is irreflexive |
| Text.LessTransitive | check-duplicates.js:79 | the order is transitive |
| Text.LessTotal | check-duplicates.js:79 | any two different names are ordered one way or the other |
| Text.LessAsymmetric | check-duplicates.js:79 | the order is asymmetric |
| Traffic.StripSeparators | fetch-ahrefs.js:82 | `replace(/[,\s]/g, '')` leaves no comma or white space, and leaves a string without them unchanged |
| Traffic.Clean | fetch-ahrefs.js:81-82 | trimming and removing separators never lengthens the figure |
| Traffic.CleanNoop | fetch-ahrefs.js:82 | a string with no comma or white space is matched as it stands |
| Traffic.MatchTraffic | fetch-ahrefs.js:85 | a match splits the cleaned string into a non-empty run of digits and dots and an optional K/M/k/m |
| Traffic.MatchTrafficIffGrammar | fetch-ahrefs.js:85-88 | the pattern matches exactly the strings of its grammar, stated character by character |
| Traffic.MatchTrafficComplete | fetch-ahrefs.js:85 | every digits-and-dots run followed by an optional unit letter is matched, with those two groups |
| Traffic.ParseFloat | fetch-ahrefs.js:90 | a number read by `parseFloat` consists of its whole and fraction digits |
| Traffic.ParseFloatLeadingDecimal | fetch-ahrefs.js:90-95 | `parseFloat` finds a number exactly when the string starts with a digit or with a dot and a digit. Only the leading decimal counts, so `"1.2.3"` reads as 1.2 |
| Traffic.ParseFloatDecimal | fetch-ahrefs.js:90 | `"w.f"` is read as the decimal with whole part w and fraction f |
| Traffic.Pow10 | fetch-ahrefs.js:90 | the scale of a decimal fraction is at least one |
| Traffic.RoundHalfUp | fetch-ahrefs.js:99-101 | `Math.round` of a non-negative quotient is within one half of it, and halves go up |
| Traffic.ApplyUnit | fetch-ahrefs.js:98-103 | the upper-cased unit M gives the value times 1000 rounded half up, K gives the value rounded half up, and any other unit, the empty one included, fails naming that unit |
| Traffic.NearestUnique | fetch-ahrefs.js:99-101 | only one integer is the rounded value |
| Traffic.ConvertTrafficToK | fetch-ahrefs.js:76-79 | a missing, non-string or empty argument gives 0 |
| Traffic.ConvertMatched | fetch-ahrefs.js:90-103 | once the pattern matched and a number was read, the upper-cased unit alone decides the result |
| Traffic.ConvertThrowsIffUnitless | fetch-ahrefs.js:91-103 | it throws exactly when the cleaned figure is digits and dots with no unit letter and starts with a readable number, and the error names the empty unit |
| Traffic.ConvertOutOfGrammar | fetch-ahrefs.js:85-88 | a cleaned string outside the pattern gives 0 |
| Traffic.ConvertNoNumericPrefix | fetch-ahrefs.js:90-95 | a matched figure with no readable number, such as `".M"`, gives 0 |
| Traffic.ConvertRounds | fetch-ahrefs.js:98-101 | with a unit letter the result is the read value, times 1000 for M/m, rounded half up. So it is a non-negative integer |
| Traffic.ConvertDecimal | fetch-ahrefs.js:98-101 | `"w.f"` with a unit letter gives w.f (times 1000 for M/m) rounded to the nearest integer |
| Traffic.DecimalPlain | fetch-ahrefs.js:82 | a decimal figure with a unit letter holds no comma and no white space, so the cleaning keeps it |
| Traffic.ConvertMegaExample | fetch-ahrefs.js:98-99 | `"80.4M"` gives 80400 |
| Traffic.ConvertKiloExample | fetch-ahrefs.js:100-101 | `"1.2K"` gives 1 |
| Traffic.ConvertUnitlessExample | fetch-ahrefs.js:91-103 | `"500"` throws the invalid-unit error |
| Traffic.ConvertZeroExamples | fetch-ahrefs.js:85-95 | `"3Q"` and `".M"` give 0 |
| Entities.ReplaceAll | fetch-ahrefs.js:63-68 | a global `replace` with a replacement no longer than the pattern does not lengthen the string |
| Entities.ReplaceAllSkip | fetch-ahrefs.js:63-68 | a prefix without the pattern's first character is copied unchanged |
| Entities.ReplaceAllNone | fetch-ahrefs.js:63-68 | a string without the pattern's first character is unchanged |
| Entities.ReplaceAllHere | fetch-ahrefs.js:63-68 | an occurrence at the front is replaced and the scan goes on after it |
| Entities.Passes | fetch-ahrefs.js:62-68 | any number of the replacement passes never lengthens the string |
| Entities.DecodeHtmlEntities | fetch-ahrefs.js:60-69 | decoding never lengthens the string |
| Entities.DecodePlain | fetch-ahrefs.js:61-68 | a string without `&`, the empty string included, is returned unchanged |
| Entities.PassesPlain | fetch-ahrefs.js:62-68 | no pass changes a string without `&` |
| Entities.PassMisses | fetch-ahrefs.js:63-68 | a pass leaves an entity that differs from its pattern in the second character untouched |
| Entities.TableShape | fetch-ahrefs.js:63-68 | the six entities start with `&`, have no other `&`, and differ in their second character. Only `&amp;` decodes to `&` |
| Entities.DecodeEntity | fetch-ahrefs.js:62-68 | a single `&lt;`, `&gt;`, `&quot;`, `&#39;` or `&nbsp;` among plain text decodes to its character |
| Entities.PassesEntity | fetch-ahrefs.js:62-68 | such an entity survives the passes before its own and is decoded by its own |
| Entities.PassHits | fetch-ahrefs.js:63-68 | a pass replaces its one entity among plain text |
| Entities.DecodeAmpLt | fetch-ahrefs.js:63-64 | `"&amp;lt;"` decodes to `"<"`, because `&amp;` is replaced first |
| Entities.PassesAfter | fetch-ahrefs.js:62-68 | once no `&` is left, the remaining passes change nothing |
| Entities.ReplaceAllMissAt | fetch-ahrefs.js:63-68 | a pass leaves an entity that differs from its pattern in the second character, and the scan resumes right after it |
| Entities.PieceStep | fetch-ahrefs.js:62-68 | pass n decodes entity n, and leaves every other entity as it reads at that point, decoded or not |
| Entities.SkipThen | fetch-ahrefs.js:63-68 | a pass copies text without the pattern's first character and then treats what follows as it would alone |
| Entities.SpliceStep | fetch-ahrefs.js:62-68 | pass n copies plain text, then treats the next entity as `PieceStep` says |
| Entities.PassStep | fetch-ahrefs.js:62-68 | pass n decodes every occurrence of entity n among plain text and the other entities, and changes nothing else |
| Entities.PassesSpliced | fetch-ahrefs.js:62-68 | after n passes, exactly the entities among the first n of the table are decoded |
| Entities.DecodeSpliced | fetch-ahrefs.js:60-69 | plain text with any number of `&lt;`, `&gt;`, `&quot;`, `&#39;` and `&nbsp;` between its pieces decodes to the same text with each entity replaced by its character |
| AhrefsTable.TbodyContent | fetch-ahrefs.js:115-126 | a failure is one of the two missing-marker errors |
| AhrefsTable.TbodyErrors | fetch-ahrefs.js:115-124 | it throws "no tbody" exactly when `<tbody` is absent. It throws "no end tag" exactly when `<tbody` is present and every `</tbody>` comes before every `<tbody` |
| AhrefsTable.TableOfExtend | fetch-ahrefs.js:121-126 | once the page holds `<tbody` and a later `</tbody>`, appending text to it does not change the result |
| AhrefsTable.RowAt | fetch-ahrefs.js:129 | a row match ends at `next`, inside the span, with its body followed right away by `</tr>`; it takes at least nine characters after `i` |
| AhrefsTable.RowAtMatch | fetch-ahrefs.js:129 | the scanner at i returns body b and end n exactly when `<tr` starts at i, its tag ends at the first `>`, b runs from there to the first `</tr>`, and n is just after that `</tr>` |
| AhrefsTable.RowAtSound | fetch-ahrefs.js:129 | what the scanner returns is such a match |
| AhrefsTable.RowAtComplete | fetch-ahrefs.js:129 | such a match is what the scanner returns |
| AhrefsTable.RowMatchAtIntro | fetch-ahrefs.js:129 | `<tr`, its tag end and the first `</tr>` after it make a match |
| AhrefsTable.RowAtCloses | fetch-ahrefs.js:129 | the scanner's result, given where the tag ends and where the body runs |
| AhrefsTable.FirstClose | fetch-ahrefs.js:129 | a body with no `</tr>` inside it, followed by `</tr>`, ends where the search finds the first `</tr>` |
| AhrefsTable.TagEndIndexOf | fetch-ahrefs.js:129 | searching for `>` finds exactly where `[^>]*>` ends the tag |
| AhrefsTable.NextRow | fetch-ahrefs.js:129-132 | `exec` from `lastIndex` lands after `lastIndex` and inside the span |
| AhrefsTable.NextRowLeftmost | fetch-ahrefs.js:129-132 | `exec` finds no row exactly when no position at or after `lastIndex` starts a row |
| AhrefsTable.Rows | fetch-ahrefs.js:132 | each row takes at least nine characters of the span, so the loop ends |
| AhrefsTable.FindRank | fetch-ahrefs.js:136 | a rank found is a non-empty run of digits |
| AhrefsTable.DigitRun | fetch-ahrefs.js:136 | the `(\d+)<\/td>` part: a group found is a non-empty run of digits |
| AhrefsTable.DigitRunSound | fetch-ahrefs.js:136 | the group found is followed right away by `</td>` |
| AhrefsTable.DigitRunFinds | fetch-ahrefs.js:136 | a digit run followed by `</td>` is found |
| AhrefsTable.RankAt | fetch-ahrefs.js:136 | the rank pattern at one position: a group found is a non-empty run of digits |
| AhrefsTable.RankAtMatch | fetch-ahrefs.js:136 | the pattern matches at i with group d exactly when `<td` starts at i and d, a non-empty digit run, follows the tag's first `>` and is followed by `</td>` |
| AhrefsTable.RankAtSound | fetch-ahrefs.js:136 | what the pattern at i returns is such a cell |
| AhrefsTable.RankAtComplete | fetch-ahrefs.js:136 | such a cell is what the pattern at i returns |
| AhrefsTable.FindRankNone | fetch-ahrefs.js:136-137 | the search finds nothing exactly when the pattern matches at no position |
| AhrefsTable.FindRankFirst | fetch-ahrefs.js:136 | what the search finds is the group at a position before which the pattern matches nowhere |
| AhrefsTable.FindRankLeftmost | fetch-ahrefs.js:136-137 | `match` finds nothing exactly when the pattern matches nowhere, and otherwise returns the group at the first position where it matches |
| AhrefsTable.FindRankFinds | fetch-ahrefs.js:136-137 | a rank is found exactly when the row holds a rank cell |
| AhrefsTable.LinkTail | fetch-ahrefs.js:141 | a link text found is non-empty, occurs in the row and holds no `<` |
| AhrefsTable.LinkBacktrack | fetch-ahrefs.js:141 | the same, over the backtracking choices of the greedy `[^>]*` |
| AhrefsTable.LinkAt | fetch-ahrefs.js:141 | the same, for an anchor at one position |
| AhrefsTable.FindLink | fetch-ahrefs.js:141-146 | the same, for the leftmost anchor that matches |
| AhrefsTable.WebsiteLink | fetch-ahrefs.js:141-143 | the website text found is non-empty, occurs in the row and holds no `<` |
| AhrefsTable.CategoryLink | fetch-ahrefs.js:146 | the category text found is non-empty, occurs in the row and holds no `<` |
| AhrefsTable.CategoryOf | fetch-ahrefs.js:146-159 | no category link gives null; otherwise the category is the entity-decoded trimmed link text, and null exactly when that is empty (`category || null`) |
| AhrefsTable.SpanAt | fetch-ahrefs.js:151 | a traffic span found at one position is in the traffic grammar |
| AhrefsTable.SpanRun | fetch-ahrefs.js:151 | the `([\d.]+[KMkm]?)<\/span>` part: a group found is in the traffic grammar |
| AhrefsTable.SpanRunSound | fetch-ahrefs.js:151 | the group found is followed right away by `</span>` |
| AhrefsTable.SpanRunFinds | fetch-ahrefs.js:151 | a string of the grammar followed by `</span>` is found |
| AhrefsTable.SpanAtMatch | fetch-ahrefs.js:151 | a span is found at s with content t exactly when `<span>` t `</span>` occurs at s and t is in the grammar |
| AhrefsTable.SpanFrom | fetch-ahrefs.js:151 | the lazy skip: a span found after a position is in the grammar |
| AhrefsTable.SpanFromNone | fetch-ahrefs.js:151-152 | the lazy skip finds nothing exactly when no span matches at or after the position |
| AhrefsTable.SpanFromFirstAt | fetch-ahrefs.js:151 | what the lazy skip finds is the span at a position before which none matches |
| AhrefsTable.SpanFromFirst | fetch-ahrefs.js:151-152 | the lazy skip finds nothing exactly when no span matches, and otherwise the first span that matches |
| AhrefsTable.TdSpanAt | fetch-ahrefs.js:151 | a traffic span found after a `<td` is in the grammar |
| AhrefsTable.TdSpanAtFirst | fetch-ahrefs.js:151 | after a `<td` whose tag ends at q, the result is the first span after q that matches, and none exactly when none does |
| AhrefsTable.TdSpanAtMatch | fetch-ahrefs.js:151 | the pattern at a `<td` finds a span exactly when the text has a matching span after that tag, and what it finds is one |
| AhrefsTable.TdSpanAtLater | fetch-ahrefs.js:151-152 | when the leftmost `<td` finds no span, no later `<td` does |
| AhrefsTable.TrafficSpan | fetch-ahrefs.js:151 | the traffic string of a row is in the grammar |
| AhrefsTable.TrafficSpanLeftmost | fetch-ahrefs.js:151-152 | trying only the leftmost `<td` gives what `match` gives: nothing exactly when no `<td` position matches, and otherwise the span of the first one that does |
| AhrefsTable.TrafficSpanFinds | fetch-ahrefs.js:151-152 | a traffic string is found exactly when the row holds a traffic cell |
| AhrefsTable.GrammarClean | fetch-ahrefs.js:151-153 | a matched traffic string is unchanged by the trim and the cleaning inside the conversion |
| AhrefsTable.ParseRowSkip | fetch-ahrefs.js:136-152 | a row is skipped exactly when it holds no rank cell (`<td…>` digits `</td>`), no website link, or no traffic cell (`<td…>` then later `<span>` grammar `</span>`) |
| AhrefsTable.ParseRowAbort | fetch-ahrefs.js:151-154 | a complete row aborts the call exactly when its traffic figure has no unit letter, with the empty-unit error |
| AhrefsTable.ParseRowEmit | fetch-ahrefs.js:143-161 | an emitted record has a trimmed website without `<` and a category that is null or non-empty |
| AhrefsTable.ParseRowStep | fetch-ahrefs.js:133-161 | the loop body, written step by step with its `continue`s, gives the row's outcome |
| AhrefsTable.ParseRow | fetch-ahrefs.js:133-161 | a row that is not skipped has a rank, a website link and a traffic span; the only error is the invalid unit. An emitted record holds the value of the rank digits (`parseInt`), the trimmed but not entity-decoded website text, `CategoryOf(row)` as its category, and the conversion of the row's traffic string |
| AhrefsTable.Outcomes | fetch-ahrefs.js:132-162 | one outcome per row, in row order |
| AhrefsTable.Collect | fetch-ahrefs.js:132-164 | at most one record per outcome |
| AhrefsTable.Prepend | fetch-ahrefs.js:156-161 | pushing records before a result keeps success or failure and adds their number |
| AhrefsTable.TableOf | fetch-ahrefs.js:111-165 | a missing `<tbody` or `</tbody>` gives its error, and a success holds at most one record per row of the span |
| AhrefsTable.CollectStep | fetch-ahrefs.js:132-162 | a skipped row adds nothing, an aborting row ends the call with its error, and an emitted row is pushed |
| AhrefsTable.PrependNil | fetch-ahrefs.js:112 | starting from the empty `sites` array changes nothing |
| AhrefsTable.PrependAssoc | fetch-ahrefs.js:156-161 | pushing in two steps is pushing once |
| AhrefsTable.ParseTable | fetch-ahrefs.js:111-165 | the `while` loop over `exec` returns exactly `TableOf(html)` |
| AhrefsTable.CollectFailsOnlyOnUnit | fetch-ahrefs.js:154 | inside the loop the only error is the invalid unit |
| AhrefsTable.Emitted | fetch-ahrefs.js:156-161 | at most one record per row |
| AhrefsTable.EmittedCons | fetch-ahrefs.js:156-161 | the records are those of the rows in order |
| AhrefsTable.CollectSpec | fetch-ahrefs.js:132-164 | the call succeeds exactly when no row aborts, and then returns the emitted records in row order. Otherwise it fails with the first abort's error |
| AhrefsTable.TableSites | fetch-ahrefs.js:132-161 | every record returned is well formed: a trimmed website without `<`, a category that is null or non-empty |
| AhrefsTable.TableRecordsFromRows | fetch-ahrefs.js:132-164 | every record `parseTable` returns is the record `ParseRow` emits for one of the rows of the table body, so its rank, website, category and traffic are those `ParseRow` states |
| AhrefsTable.CollectFromRows | fetch-ahrefs.js:132-162 | a successful pass over the rows returns only records emitted for one of them |
| AhrefsTable.EmittedFrom | fetch-ahrefs.js:156-161 | each pushed record comes from a row that emitted it |
| AhrefsTable.EmittedWellFormed | fetch-ahrefs.js:156-161 | well-formed outcomes give well-formed records |
| AhrefsTable.NoRowsNoSites | fetch-ahrefs.js:132-164 | a table body without `<tr` gives an empty list |
| Duplicates.NormalizeWebsite | check-duplicates.js:20-32 | the result is never longer than the input, so the empty name gives `''` |
| Duplicates.LowerNoop | check-duplicates.js:24 | lower-casing leaves a name without upper-case letters unchanged |
| Duplicates.NormalizeLowerCase | check-duplicates.js:24 | the result holds no upper-case letter |
| Duplicates.NormalizeStripsWww | check-duplicates.js:26-29 | `www.x` and `x` fall together for a canonical x not starting with `www.`, and other sub-domains are kept |
| Duplicates.WwwPrefix | check-duplicates.js:27-29 | exactly one `www.` is removed from a canonical name |
| Duplicates.NormalizeIgnoresCase | check-duplicates.js:24 | names that differ only in letter case fall together |
| Duplicates.NormalizeBlank | check-duplicates.js:21-24 | a non-empty all-space name is truthy and normalizes to `''` |
| Duplicates.NormalizeNotIdempotent | check-duplicates.js:27-29 | `www.www.x` becomes `www.x`, and a second call changes it again |
| Duplicates.NormalizeStable | check-duplicates.js:20-32 | a result that is canonical and does not start with `www.` is a fixed point |
| Duplicates.KeptBy | check-duplicates.js:49-53 | no more entries than records |
| Duplicates.KeptStep | check-duplicates.js:49-53 | one more record adds its entry exactly when its domain is truthy |
| Duplicates.KeptCount | check-duplicates.js:49-51 | there are as many entries as records with a truthy domain |
| Duplicates.KeptEntries | check-duplicates.js:49-63 | an entry is the normalized key and the raw `{domain, rank, url}` of some record with a truthy domain, and each such record gives one |
| Duplicates.GroupByName | check-duplicates.js:47-64 | the first loop builds a map whose keys are exactly the normalized names in first-seen order, and each key maps to its group |
| Duplicates.AddRecord | check-duplicates.js:49-63 | one pass of the first loop keeps the map and the key order in step with the entries, extended by the record's entry, or by none when its domain is falsy |
| Duplicates.TracksAppend | check-duplicates.js:55-63 | the `set` of a new key, or the `push` onto an existing one, keeps the map in step with the entries |
| Duplicates.TracksAppendNew | check-duplicates.js:55-63 | a record under a new name starts its group and goes to the end of the key order |
| Duplicates.TracksAppendOld | check-duplicates.js:59-63 | a record under a known name joins the end of its group |
| Duplicates.KeepShared | check-duplicates.js:67-76 | the second loop returns, in key order, exactly the clusters whose group has more than one member |
| Duplicates.GroupAppend | check-duplicates.js:55-63 | a new entry joins only its own key's group, and a new key goes at the end of the key order |
| Duplicates.GroupEmptyIffAbsent | check-duplicates.js:55-57 | a key is in the map exactly when its group is non-empty |
| Duplicates.KeyOrder | check-duplicates.js:55-57 | there are no more keys than entries |
| Duplicates.Multi | check-duplicates.js:69-76 | no more clusters than keys |
| Duplicates.KeyOrderDistinct | check-duplicates.js:55-57 | the key order has no repeats |
| Duplicates.DistinctCard | check-duplicates.js:98 | `Map.size` counts the keys |
| Duplicates.MapSize | check-duplicates.js:98 | the map has exactly as many keys as there are distinct normalized names |
| Duplicates.GroupEntries | check-duplicates.js:55-63 | a member is in a key's group exactly when its entry has that key |
| Duplicates.GroupMembers | check-duplicates.js:49-63 | a group holds exactly the raw records whose truthy domain normalizes to its key |
| Duplicates.MembersByAppend | check-duplicates.js:49-63 | one more record extends only its own key's list |
| Duplicates.GroupInOrder | check-duplicates.js:49-63 | each group equals the matching records in input order, defined front to back without the map |
| Duplicates.SumSizesAppend | check-duplicates.js:69-76 | summing group sizes over one more key adds its group's size |
| Duplicates.SumSizesStep | check-duplicates.js:59-63 | one more entry adds one to the sizes of the keys it belongs to |
| Duplicates.GroupSizesSum | check-duplicates.js:49-64 | the group sizes add up to the number of kept records |
| Duplicates.MultiMembers | check-duplicates.js:69-76 | the second loop keeps a cluster exactly when its group has two or more members |
| Duplicates.MultiDistinct | check-duplicates.js:69-76 | the kept clusters have pairwise different names, all of them keys |
| Duplicates.NotLess | check-duplicates.js:79 | two names not in order are in the reverse order or equal |
| Duplicates.LessEqNotLess | check-duplicates.js:79 | the non-strict order is transitive against the strict one |
| Duplicates.Insert | check-duplicates.js:79 | an insertion adds exactly one element |
| Duplicates.SortByName | check-duplicates.js:79 | sorting keeps the number of clusters |
| Duplicates.InsertPermutes | check-duplicates.js:79 | an insertion adds its cluster and loses none |
| Duplicates.InsertSorted | check-duplicates.js:79 | an insertion keeps the list sorted |
| Duplicates.SortByNameCorrect | check-duplicates.js:79 | the sort is a permutation, and its result is sorted by name |
| Duplicates.SortByNamePermutes | check-duplicates.js:79 | the sort keeps every cluster, as often as it occurs |
| Duplicates.SortByNameSorted | check-duplicates.js:79 | the sort's result is ordered by name |
| Duplicates.TwiceInMultiset | check-duplicates.js:79 | a value at two positions occurs twice |
| Duplicates.OnceInMultiset | check-duplicates.js:79 | a list of clusters with pairwise different names holds each cluster at most once |
| Duplicates.CheckDuplicates | check-duplicates.js:47-104 | the whole computation returns exactly `DuplicateReport` of the records |
| Duplicates.DuplicateReport | check-duplicates.js:96-104 | `duplicates` is the list's length, and duplicates ≤ unique ≤ total |
| Duplicates.DuplicateReportCorrect | check-duplicates.js:67-104 | `total` is the input length, `duplicates` is the list length, and the list is sorted. A cluster is listed exactly when its group has two or more members and it carries that group |
| Duplicates.UniqueCountsNames | check-duplicates.js:98 | `unique` is the number of distinct normalized names, and their groups' sizes add up to the kept records |
| Duplicates.ReportStrictlySorted | check-duplicates.js:79 | the reported list never repeats a name, so it is strictly ascending |
| Duplicates.SurplusCons | check-duplicates.js:69-76 | the surplus of a list with one more cluster in front |
| Duplicates.SurplusInsert | check-duplicates.js:79 | an insertion adds the inserted cluster's surplus |
| Duplicates.SurplusSorted | check-duplicates.js:79 | sorting keeps the surplus |
| Duplicates.SurplusMulti | check-duplicates.js:69-76 | the surplus of the kept clusters is the total group size less one per key |
| Duplicates.UniquePlusSurplus | check-duplicates.js:47-98 | `unique` plus Σ(size − 1) over the reported clusters equals the number of records with a truthy domain |
| Tranco.ParseLine | fetch-tranco.js:86-105 | a record comes only from a domain ending in `.tw`, with `url` equal to `https://` plus the domain |
| Tranco.ParseInt | fetch-tranco.js:92 | `parseInt` gives a number exactly when, after leading white space, the text starts with a digit or a sign and a digit; a negative number needs a `-` there, and a leading digit gives a non-negative one |
| Tranco.ParseIntTrimStart | fetch-tranco.js:92 | `parseInt` skips leading white space itself |
| Tranco.ParseIntSignedAt | fetch-tranco.js:92 | a sign followed by a digit run gives the signed value of the run |
| Tranco.FilterSites | fetch-tranco.js:85-106 | no more records than lines |
| Tranco.FilterTaiwan | fetch-tranco.js:82-106 | the loop returns exactly the records of the lines, in line order |
| Tranco.FilterSitesAppend | fetch-tranco.js:85-106 | lines are filtered one by one: the records of two pieces of the file are those of the whole, in order |
| Tranco.FilterSitesSnoc | fetch-tranco.js:85-106 | one more line adds the records of that line alone, at the end |
| Tranco.FilterJoined | fetch-tranco.js:82 | a file joined from newline-free lines is filtered line by line |
| Tranco.DigitSpanPrefix | fetch-tranco.js:92 | the digit run of a numeral followed by a non-digit is that numeral |
| Tranco.ParseIntPrefix | fetch-tranco.js:92 | `parseInt` reads the leading numeral and ignores trailing text, so `"12x"` gives 12 |
| Tranco.ParseIntSigned | fetch-tranco.js:92 | `parseInt` accepts a sign, so `"-3"` gives −3 |
| Tranco.ParseIntNaN | fetch-tranco.js:92-96 | the rank is not finite exactly when no digit follows the white space and the optional sign |
| Tranco.ParseLineFields | fetch-tranco.js:86-104 | for any comma-free rank field r and domain field d, the line `r,d[,…]` gives a record exactly when `parseInt(r)` is a number and the trimmed d ends in `.tw`, which excludes `.TW`. The record holds that number, the trimmed d and its https URL, and later fields are ignored |
| Tranco.JoinFields | fetch-tranco.js:89 | a line is its rank field, a comma and the other fields joined |
| Tranco.ParseLineFirstComma | fetch-tranco.js:86-104 | the rank field ends at the first comma, and the domain is the trimmed text up to the next one |
| Tranco.SplitTrimmedLine | fetch-tranco.js:86-89 | trimming a line and splitting it keeps the start of the first field at the first comma |
| Tranco.SecondField | fetch-tranco.js:89-93 | the trimmed second field is the trimmed domain text, whatever follows it |
| Tranco.LastField | fetch-tranco.js:93 | a domain field at the end of the line keeps only its trimmed text |
| Tranco.MiddleField | fetch-tranco.js:89-93 | a field followed by a comma is cut at that comma, whatever follows |
| Tranco.ParseLineNoComma | fetch-tranco.js:89-90 | a line without a comma never yields a record |
| Tranco.ParseLineWellFormed | fetch-tranco.js:93-104 | an emitted domain is trimmed, comma-free and ends in `.tw`, and its URL is `https://` plus it |
| Tranco.FilterSitesWellFormed | fetch-tranco.js:85-106 | every record of the file is well formed |

## Left out

- Network access is not modelled. This covers `download` in fetch-ahrefs.js and fetch-tranco.js, all of `main`, and fetch-cloudflare.js entirely. The model starts from the downloaded HTML and CSV text.
- Output side effects are not modelled: `fs.writeFileSync`, `fs.readFileSync`, `console.log` and `process.exit`.
- The AdmZip decompression and `JSON.parse` are left out. `checkDuplicates` takes its records as a sequence of `{domain: Option<string>, rank, url}`.
- Only absent and string domains are modelled. A domain that is truthy but not a string (a number, say) is not.
- Entities.DecodeHtmlEntities: for text holding `&amp;`, or an ampersand outside the six entities, the model states only the length bound and the `"&amp;lt;"` example (`DecodeAmpLt`). The ampersand a pass produces can start a new entity for the later passes, so no simple statement covers that case. Text with any number of the other five entities is covered by `DecodeSpliced`.
- Traffic.ConvertRounds: binary floating point is not modelled. `parseFloat`, the multiplication by 1000 and `Math.round` are exact decimal arithmetic here, so a product such as 1.005 × 1000, which is 1004.9999999999999 in doubles, is 1005 exactly. This changes results: at an exact decimal half the model can be one above the source. For `"0.5005M"` the source rounds 500.49999999999994 to 500, while the model gives 501.
- Traffic.ConvertDecimal: the same exact arithmetic; `"0.5005M"` gives 501 here and 500 in the source.
- `Traffic.ConvertTrafficToK`: the non-string case is represented by `None`. The model has no JavaScript value types.
- Unicode is not modelled. `toLowerCase`, `toUpperCase`, `trim` and `\s` act on ASCII letters and ASCII white space only.
- `localeCompare` is modelled as code-point order on the names. For lower-cased host names made of `a`–`z`, `0`–`9`, `.` and `-`, root collation orders them the same way. It differs on other characters: for example, root collation puts `_` before the digits.
- `Array.prototype.sort` is modelled as a stable insertion sort function (`SortByName`). The model states the result, not the in-place rearrangement.
- `parseInt` overflow to `Infinity` on very long digit runs is not modelled. Ranks are unbounded integers, so `Number.isFinite` fails only for NaN.
- The regular-expression engine is not modelled in general. Each pattern is replaced by the scanner that finds the same leftmost match, as described above.
- Concrete outputs of `parseTable` on sample pages are not stated. The properties are stated for all inputs instead.
