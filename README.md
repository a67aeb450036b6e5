# Search box of the study portal, in Dafny

This project models the incremental filter in `search.js`. The filter is a
search box over a page of subject links (`.materia-link`) that are grouped in
modules (`.modulo`, each with a `data-module` name). A filter pass
(`performSearch`) works in these steps:

- it normalizes the query: canonical decomposition, removal of the combining
  marks U+0300..U+036F, then lower-casing;
- it clears every `hidden` and `highlight` class;
- it stops on a blank query;
- it highlights each link whose normalized searchable text contains the
  query, and hides the others;
- it tallies the matches per module name and hides the modules that have no
  match;
- it writes a Portuguese count message and shows the results panel and the
  clear button.

Around the pass, the model also covers the debounce on input, the Enter key,
the clear button, the swipe-to-clear gesture, Ctrl/Cmd+K and the user
focusing the input. They are state transitions,
with no real time.

Modules:

- `TextNormalize` (`normalize.dfy`) holds `normalizeText` as pure functions,
  and lemmas about what normalization leaves behind.
- `Matching` (`matching.dfy`) holds the link record and the searchable text.
  It also has `String.prototype.includes`, the `trim` blank test, and the
  running total and per-module tally of the match loop.
- `ResultText` (`result_text.dfy`) holds the count message.
- `FilterSpec` (`filter_spec.dfy`) has `Pass`, the page state after one
  filter pass as a function of the state before. The properties of a pass
  are proved about it.
- `SearchBox` (`search_box.dfy`) has a class that holds the page state.
  - The classes of the links and modules are `array<bool>` fields. The
    displays, the count text, the focus, the input value and the debounce
    variables are plain fields.
  - `PerformSearch` and its loops are imperative methods, proved to leave
    exactly the state `Pass` describes.
  - The event handlers are methods that update the same fields.
- `JsObjectCounts` (`js_object_counts.dfy`) models the tally as the script
  writes it, as a plain object that inherits from `Object.prototype`. It
  shows where that tally differs from the map the rest of the model uses
  (see Findings).
- `Scenarios` (`scenarios.dfy`) works through small cases: a leading-space
  query, a query spanning two fields, "fra" finding "Frações", a whole pass
  of "fra" over a collection of two modules, and "Ação"/"acao".

Where the code differs from the behaviour a reader of the page would
expect, the model follows the code, with one exception: the per-module
tally. The script keeps it in a plain object, and `Pass` and `PerformSearch`
keep it in a map, the intended rule "a module with no match is hidden". The
two differ only for module names that are members of `Object.prototype`
(see Findings and "## Left out"). Points where the model follows the code:

- **Module visibility is decided by name.** The intended rule would be a
  module shown when it *contains* a highlighted link. The code compares the
  `data-module` of the link's enclosing module with the `data-module` of
  each module (search.js:58, 77-78). The two agree when the names are
  distinct. Two modules that share a name are both shown when either one
  has a match. The model states visibility by name (`FilterSpec.PassModuleHidden`).
- **The query is not trimmed for matching.** The blank test trims the query
  (search.js:35), but the substring test uses it untrimmed (search.js:61).
  So a leading or trailing space must be matched literally
  (`Scenarios.LeadingSpaceIsSearched`).
- **A blank query leaves the count text alone.** It hides the panel and the
  clear button, but does not rewrite `resultsCount` (search.js:35-45).
- **A missing `data-module` attribute gives the key "null".** The attribute
  then reads as `null`, and a plain object turns that key into the string
  "null" (`Matching.PropertyKey`).

## Model

| member | source | states |
|---|---|---|
| TextNormalize.IsCombiningMark | search.js:16 | the regex class `[\u0300-\u036f]`: a code point of U+0300..U+036F; definition, used by `StripMarksSpec` |
| TextNormalize.IsUpper | search.js:16 | the characters the modelled `toLowerCase` changes: A-Z and the Latin-1 capitals U+00C0..U+00DE except U+00D7; definition, used by `LowerChar` |
| TextNormalize.Normalize | search.js:15-17 | `normalizeText` as decomposition, mark removal and lower-casing in that order; its properties are stated by `NormalizeSettled`, `NormalizeIdempotent`, `NormalizeConcat`, `NormalizeAccented` and `NormalizeIgnoresCase` |
| TextNormalize.Decompose | search.js:16 | `normalize('NFD')` on one character: a precomposed Latin-1 letter becomes an ASCII base letter followed by one combining mark in U+0300..U+036F; any other character is kept as it is |
| TextNormalize.DecomposeCanonical | search.js:16 | decomposition is complete after one step: every character it produces decomposes to itself |
| TextNormalize.Nfd | search.js:16 | `normalize('NFD')` on a text, character by character, never shorter than its input; its properties are stated by `NfdCanonical`, `NfdOfCanonical` and `NfdConcat` |
| TextNormalize.NfdCanonical | search.js:16 | every character of a decomposed text is canonical |
| TextNormalize.NfdOfCanonical | search.js:16 | decomposition leaves a text of canonical characters unchanged |
| TextNormalize.StripMarks | search.js:16 | `replace(/[\u0300-\u036f]/g, '')`, never longer than its input; its properties are stated by `StripMarksSpec`, `StripMarksKeeps` and `StripMarksConcat` |
| TextNormalize.StripMarksSpec | search.js:16 | after the replace of U+0300..U+036F no combining mark is left, and every character that is left comes from the input |
| TextNormalize.StripMarksKeeps | search.js:16 | the replace removes only combining marks: a text without any is kept whole |
| TextNormalize.LowerChar | search.js:16 | a lower-cased character is never upper-case, and a character that is not upper-case is kept |
| TextNormalize.Lower | search.js:16 | `toLowerCase`, of the same length as its input; its properties are stated by `LowerSpec` and `LowerConcat` |
| TextNormalize.LowerSpec | search.js:16 | `toLowerCase` works character by character |
| TextNormalize.NfdConcat | search.js:16 | decomposition distributes over concatenation |
| TextNormalize.StripMarksConcat | search.js:16 | mark removal distributes over concatenation |
| TextNormalize.LowerConcat | search.js:16 | lower-casing distributes over concatenation |
| TextNormalize.NormalizeConcat | search.js:15-17 | `normalizeText(a + b) == normalizeText(a) + normalizeText(b)` |
| TextNormalize.LowerSettles | search.js:16 | lower-casing a canonical non-mark character gives a character that normalization leaves alone |
| TextNormalize.NormalizeSettled | search.js:15-17 | every character of a normalized text has no combining mark, is not upper-case and has nothing left to decompose |
| TextNormalize.NormalizeOfSettled | search.js:15-17 | a text made only of such characters is its own normal form |
| TextNormalize.NormalizeIdempotent | search.js:15-17 | `normalizeText(normalizeText(s)) == normalizeText(s)` |
| TextNormalize.NormalizeDecomposed | search.js:15-17 | on an already decomposed text, normalization is exactly mark removal followed by lower-casing |
| TextNormalize.NormalizePlainChar | search.js:15-17 | a canonical character that is not a mark normalizes to its lower case |
| TextNormalize.NormalizeAccented | search.js:15-17 | an accented letter normalizes as its base letter does |
| TextNormalize.NormalizeCharwise | search.js:15-17 | two texts whose characters normalize alike, position by position, normalize alike |
| TextNormalize.DecomposeOfLower | search.js:16 | lower-casing a capital keeps its decomposition shape: a precomposed capital lower-cases to the precomposed small letter with the same mark on the lower-cased base letter |
| TextNormalize.DecomposeOfLowerA | search.js:16 | the same fact for the capitals U+00C0..U+00C7 |
| TextNormalize.DecomposeOfLowerE | search.js:16 | the same fact for the capitals U+00C8..U+00CF |
| TextNormalize.DecomposeOfLowerO | search.js:16 | the same fact for the capitals U+00D0..U+00D6 |
| TextNormalize.DecomposeOfLowerU | search.js:16 | the same fact for the capitals U+00D8..U+00DE |
| TextNormalize.NormalizeIgnoresCaseChar | search.js:14-17 | every character normalizes as its lower case does |
| TextNormalize.NormalizeIgnoresCase | search.js:14-17 | case is ignored: `normalizeText(s.toLowerCase()) == normalizeText(s)` for every text |
| Matching.OrEmpty | search.js:49-50 | an attribute read with the empty-text default: the value, or '' when the attribute is missing; definition, used by `SearchableFields` |
| Matching.PropertyKey | search.js:58 | the key a `data-module` value gives as a property name, "null" when the attribute is missing; definition, used by `ModuleCountsSpec` and `PassModuleHidden` |
| Matching.SearchableText | search.js:49-56 | the normalized join of the four fields; its meaning is stated by `SearchableFields` |
| Matching.Includes | search.js:61 | `String.prototype.includes` as a left-to-right scan; its meaning is stated by `IncludesIff` |
| Matching.Trim | search.js:35 | `trim`, as `TrimEnd` of `TrimStart`; the properties are stated on those two |
| Matching.IsBlank | search.js:35 | `!normalizedSearch.trim()`; its meaning is stated by `BlankIffAllWhitespace` |
| Matching.Matches | search.js:61 | the test on one link: its searchable text includes the normalized query; its meaning is stated by `FieldMatches`, `SpanningMatch` and `PassMatches` |
| Matching.SearchableFields | search.js:49-57 | the searchable text is title, data-search, name and description, each normalized, joined by single spaces; a missing attribute reads as '' |
| Matching.IncludesIff | search.js:61 | `text.includes(pattern)` holds exactly when the pattern occurs at some position of the text |
| Matching.IncludesWitness | search.js:61 | when the scan succeeds there is a position where the pattern occurs |
| Matching.OccursIncludes | search.js:61 | the scan succeeds whenever the pattern occurs at some position |
| Matching.IncludesEmpty | search.js:61 | the empty query occurs in every text |
| Matching.IncludesInfix | search.js:61 | a pattern found in a part of a text is found in the whole text |
| Matching.IsJsWhitespace | search.js:35 | the characters `trim` strips: ECMAScript WhiteSpace and LineTerminator; definition, used by `TrimStart`, `TrimEnd` and `BlankIffAllWhitespace` |
| Matching.TrimStart | search.js:35 | `trim` removes exactly the leading WhiteSpace/LineTerminator characters: the result is a suffix that starts with none |
| Matching.TrimEnd | search.js:35 | `trim` removes exactly the trailing WhiteSpace/LineTerminator characters: the result is a prefix that ends with none |
| Matching.BlankIffAllWhitespace | search.js:35 | `!s.trim()` holds exactly when every character of `s` is whitespace |
| Matching.FieldMatches | search.js:49-61 | a query found in any one normalized field matches the link |
| Matching.IncludesInJoined | search.js:55-61 | a pattern found in one of four texts is found in the four joined by spaces |
| Matching.SpanningMatch | search.js:55-61 | a suffix of the normalized title, a space and a prefix of the normalized data-search text, taken together, match the link |
| Matching.IncludesAcross | search.js:55-61 | a suffix of the first text, a space and a prefix of the second are found in the joined text |
| Matching.OccursAcross | search.js:55-61 | the position of such a spanning occurrence is where the suffix starts |
| Matching.Hits | search.js:48-73 | the outcome of the substring test for each link, in document order, one per link; its meaning is stated by `HitsAt` |
| Matching.Keys | search.js:58 | the module key of each link, one per link; definition |
| Matching.CountHits | search.js:22-63 | `totalResults` after the first `i` links; its meaning is stated by `CountHitsIsHits` |
| Matching.HitsAt | search.js:48-72 | the outcome recorded for link `i` is the substring test on link `i` |
| Matching.Tally | search.js:66-69 | a tally step adds the key if it is missing, sets its entry to the old count plus one (0 when missing), and keeps every other entry |
| Matching.ModuleCounts | search.js:23-69 | `moduleResults` after the first `i` links; its meaning is stated by `ModuleCountsSpec` and `ModuleCountsSum` |
| Matching.ModuleUnmatched | search.js:78 | the test "count is 0 or missing" on the map; its meaning is stated by `ModuleUnmatchedIff` |
| Matching.CountHitsIsHits | search.js:22-63 | `totalResults` after `i` links is the number of matching links among them |
| Matching.KeyHitIndicesStep | search.js:61-69 | the matching links with a given key among `i` links are those among `i - 1`, plus link `i - 1` when it matches and has the key |
| Matching.ModuleCountsSpec | search.js:23-69 | a module name has an entry in `moduleResults` exactly when a link with that name matched, and the entry counts those links |
| Matching.ModuleUnmatchedIff | search.js:66-78 | "count is 0 or absent" holds exactly when no matching link has that module name |
| Matching.SumValuesUpdate | search.js:66-69 | the sum of the tally grows by the difference at the updated key |
| Matching.SumValuesRemove | search.js:66-69 | the sum of the tally is one entry plus the sum of the rest |
| Matching.ModuleCountsSum | search.js:63-69 | the per-module counts add up to `totalResults` |
| ResultText.Decimal | search.js:85 | a number in a template literal is one or more decimal digits, with no leading zero |
| ResultText.DecimalRoundTrip | search.js:85 | reading the numeral back gives the number |
| ResultText.ResultMessage | search.js:84-99 | 0 gives "Nenhum resultado encontrado", 1 gives "1 resultado encontrado", N > 1 gives "N resultados encontrados" |
| ResultText.LeadingDigitsOfNumeral | search.js:85 | a numeral followed by text that does not start with a digit has exactly the numeral's digits as its leading digits |
| ResultText.ResultMessageNumeral | search.js:85 | the message starts with the numeral of the count, and with no digit when the count is 0 |
| ResultText.ResultMessageInjective | search.js:84-102 | different counts give different messages |
| FilterSpec.ModuleFlags | search.js:76-81 | the module flags after the module loop, one per module; their meaning is stated by `ModuleFlagsIff` |
| FilterSpec.Pass | search.js:20-103 | a pass leaves one flag per link and one per module; what the flags, displays and text mean is stated by the lemmas below |
| FilterSpec.PassBlank | search.js:26-45 | for an empty or whitespace-only normalized query, no link is hidden or highlighted, no module is hidden, the panel and clear button are 'none', and the count text is untouched |
| FilterSpec.PassMatches | search.js:48-72 | for any other query, a link is highlighted exactly when the untrimmed normalized query occurs in its searchable text, and hidden exactly when it is not highlighted |
| FilterSpec.PassExclusive | search.js:26-72 | no link is ever both hidden and highlighted; after a non-blank query each link is exactly one of the two |
| FilterSpec.PassCounts | search.js:61-85 | the message reports the number of highlighted links, and the per-module counts add up to that number |
| FilterSpec.PassModuleHidden | search.js:58-81 | after a non-blank query a module is hidden exactly when no highlighted link carries its module name |
| FilterSpec.ModuleFlagsIff | search.js:76-81 | a module flag is set exactly when no matching link has that module's name |
| FilterSpec.PassMessage | search.js:84-102 | the panel and clear button are 'block' after every non-blank query, and the message has its 0, 1 or N form for the number of highlighted links |
| FilterSpec.PassIdempotent | search.js:20-32 | running the pass twice with the same query leaves the state of running it once |
| FilterSpec.PassForgetsPriorState | search.js:20-45 | the flags and displays a pass leaves depend only on the query and the collection, not on the state before |
| FilterSpec.PassIgnoresCase | search.js:14-21 | a query and its lower-cased copy leave the same page ("ALGEBRA" finds what "algebra" finds) |
| FilterSpec.ClearShowsAll | search.js:128-171 | a pass with the empty query (clear button or swipe) shows every link and module and hides the panel and the clear button |
| SearchBox.SwipeClears | search.js:164-173 | `swipeDistance < -50 && searchInput.value`: the touch ended more than 50 pixels left of its start on a non-empty input; definition, used by `OnTouchEnd` |
| SearchBox.SearchBox.constructor | search.js:3-12 | the page as loaded: no class set, no inline display, empty unfocused input, no pending timer |
| SearchBox.SearchBox.PerformSearch | search.js:20-103 | the object's page state after the method is exactly `Pass` of the state before |
| SearchBox.SearchBox.ResetFlags | search.js:26-32 | every link and module flag is cleared |
| SearchBox.SearchBox.MarkLinks | search.js:48-72 | the match loop leaves highlight = the substring outcomes and hidden = their negation, and returns the total and the per-module tally of those outcomes |
| SearchBox.SearchBox.MarkLink | search.js:48-71 | one iteration sets exactly link `i`'s flags from its outcome and advances the total and the tally by one link |
| SearchBox.SearchBox.LinkMatches | search.js:49-61 | the test on one link is the substring test on its searchable text |
| SearchBox.SearchBox.CountMatch | search.js:66-69 | the two-step "reset to 0 if falsy, then ++" is one tally step |
| SearchBox.SearchBox.HideUnmatchedModules | search.js:76-81 | each module is hidden exactly when its tally is 0 or absent |
| SearchBox.SearchBox.OnInput | search.js:106-112 | an input cancels the pending timer and schedules one new one, so exactly one pass is pending |
| SearchBox.SearchBox.OnTimerFired | search.js:109-111 | a pending timer runs a pass on the input's current value and leaves none pending; a cancelled one changes nothing |
| SearchBox.SearchBox.OnKeyPress | search.js:115-125 | Enter cancels the pending timer, runs the pass at once and, on mobile, removes the focus; other keys change nothing |
| SearchBox.SearchBox.OnClearClick | search.js:128-132 | the clear button empties the input, leaves the state of `performSearch('')`, and focuses the input |
| SearchBox.SearchBox.OnFocus | search.js:142-145 | the input gains the focus and nothing else changes; the listener's scroll is left out |
| SearchBox.SearchBox.OnBlur | search.js:40 | the user moves away from the input, so `document.activeElement === searchInput` no longer holds; nothing else changes |
| SearchBox.SearchBox.OnKeyDown | search.js:148-156 | Ctrl+K or Cmd+K on a desktop device focuses the input; any other key, or any key on a mobile device, changes nothing |
| SearchBox.SearchBox.OnTouchStart | search.js:160-162 | a touch start records its x coordinate |
| SearchBox.SearchBox.OnTouchEnd | search.js:164-173 | a swipe of distance below -50 on a non-empty input empties it and leaves the state of `performSearch('')`; any other touch changes nothing |
| JsObjectCounts.IsPrototypeName | search.js:23 | the twelve names every object literal inherits from `Object.prototype`; definition, used by `Get` and the agreement lemmas |
| JsObjectCounts.Get | search.js:66-78 | `obj[k]`: the own property first, then the inherited member of a prototype name, else `undefined`; definition, used by `TallyAsWritten`, `HiddenAsWritten` and `CountsAgreeOffPrototype` |
| JsObjectCounts.Set | search.js:67-69 | `obj[k] = v`: an own property, except on "__proto__", whose setter ignores a number; definition, used by `TallyAsWritten` and `ProtoNeverOwn` |
| JsObjectCounts.Truthy | search.js:66-78 | `undefined`, 0 and NaN are falsy, functions and objects truthy; definition, used by `HiddenAgreesOffPrototype` and the counterexamples |
| JsObjectCounts.Increment | search.js:69 | `++`: one more for a number, NaN for anything else; definition, used by `TallyAsWritten` and `ConstructorModuleHidden` |
| JsObjectCounts.TallyAsWritten | search.js:66-69 | one tally step as written on the object; its relation to `Tally` is stated by `CountsAgreeOffPrototype` |
| JsObjectCounts.CountsAsWritten | search.js:23-73 | the object tally after the first `i` links; stated by `CountsAgreeOffPrototype` and `ProtoNeverOwn` |
| JsObjectCounts.HiddenAsWritten | search.js:78 | the module test as written on the object; stated by `HiddenAgreesOffPrototype` and the three counterexamples |
| JsObjectCounts.CountsAgreeOffPrototype | search.js:63-69 | for every module name that is not an `Object.prototype` member, the object tally reads exactly the map tally's count, or `undefined` |
| JsObjectCounts.HiddenAgreesOffPrototype | search.js:66-81 | for those names, the module test as written hides a module exactly when the map-based test does |
| JsObjectCounts.ConstructorModuleHidden | search.js:66-78 | as written, a module named "constructor" with exactly one matched link is hidden |
| JsObjectCounts.ConstructorTwiceShown | search.js:66-78 | as written, a module named "constructor" with two matched links counts 1 and is shown, as the map shows it |
| JsObjectCounts.ConstructorUnmatchedShown | search.js:66-78 | as written, a module named "constructor" with no match is shown, where the map hides it |
| JsObjectCounts.ToStringModuleShown | search.js:78 | as written, a module named "toString" with no match stays visible |
| JsObjectCounts.ProtoModuleNeverHidden | search.js:66-78 | as written, a module named "__proto__" is never hidden, matched or not |
| JsObjectCounts.ProtoNeverOwn | search.js:67-69 | "__proto__" never becomes an own entry of the tally |
| Scenarios.PlainTextNormal | search.js:15-17 | a text of lower-case ASCII letters and spaces normalizes to itself |
| Scenarios.LeadingSpaceIsSearched | search.js:35-61 | " abc" is not blank, but it misses the link titled "abc", which "abc" finds |
| Scenarios.ExampleText | search.js:49-57 | the searchable text of that link is "abc x y z" |
| Scenarios.ExampleSearch | search.js:61 | "abc x y z" contains "abc" but not " abc" |
| Scenarios.QuerySpansTitleAndAlias | search.js:55-61 | "direito penal" matches every link with title "direito" and data-search "penal", whatever its name and description |
| Scenarios.FractionsFoundByPrefix | search.js:49-61 | "fra" matches the link whose description is "Frações" |
| Scenarios.FractionsPrefix | search.js:16 | the normal form of "Frações" starts with "fra" |
| Scenarios.FraNormal | search.js:16 | "Fra" normalizes to "fra" |
| Scenarios.FractionsPass | search.js:20-103 | the worked example (G1: "Matemática Básica"/"Frações" and "História"; G2: "Química"), query "fra": highlight [true, false, false], hidden [false, true, true], G1 shown and G2 hidden, panel shown, text "1 resultado encontrado" |
| Scenarios.FractionsHits | search.js:48-73 | in that collection "fra" matches the first link only, and the module keys are G1, G1, G2 |
| Scenarios.FractionsCounts | search.js:61-69 | those outcomes give a total of 1 and the tally {G1: 1} |
| Scenarios.OtherNamesMiss | search.js:49-61 | "fra" misses the links named "História" and "Química" |
| Scenarios.NameNormal | search.js:16 | "História" normalizes to "historia" and "Química" to "quimica" |
| Scenarios.NoLetterF | search.js:61 | neither "historia" nor "quimica" has an "f" |
| Scenarios.AccentedWord | search.js:16 | a capitalised word with one accented letter normalizes to its lower case without the accent |
| Scenarios.CapitalizedNormal | search.js:16 | a capitalised lower-case ASCII word normalizes with its first letter lower-cased |
| Scenarios.AccentNormal | search.js:16 | an accented letter on a lower-case ASCII base normalizes to the base letter |
| Scenarios.NameLacksLetter | search.js:49-61 | a link with only a name, whose normal form lacks the query's first letter, does not match |
| Scenarios.FirstLetterMissing | search.js:61 | a text without the first letter of a pattern does not include it |
| Scenarios.AccentAndCaseIgnored | search.js:16-21 | "Ação" and "acao" normalize alike, and give the same pass |
| Scenarios.SameLetters | search.js:16 | "Ação" and "acao" normalize alike |
| Scenarios.SameLettersCharwise | search.js:16 | "Ação" and "acao" normalize alike at each position |
| Scenarios.CapitalFolds | search.js:16 | 'A' and 'a' normalize alike |
| Scenarios.AccentFolds | search.js:16 | 'ç' and 'c', and 'ã' and 'a', normalize alike |

## Left out

- DOM access and event wiring are not modelled: `getElementById`, `querySelectorAll`, `closest`, `classList`, `style`, `addEventListener` and `setAttribute` (search.js:3-9, 107-184). The page is a list of link records plus the `data-module` value of each module. The classes are boolean arrays, and each listener is a method.
- Unicode decomposition and lower-casing are modelled only for ASCII and Latin-1. The script calls the host's full Unicode `normalize('NFD')` and `toLowerCase` (search.js:16). Here the Latin-1 precomposed letters decompose, and A-Z and the Latin-1 capitals lower-case. Every other character is its own decomposition and its own lower case.
- Timer delays are not modelled (300 ms on mobile, 150 ms otherwise, search.js:111). Timers are ids that are scheduled, cancelled or fired. Which pending timer fires, and when, is a parameter (`OnTimerFired`).
- Smooth scrolling after results and on focus is left out (search.js:90-97, 143-145). So is the 768-pixel width test. These are presentation effects.
- `blur` and `focus` are modelled only as an `inputFocused` flag. The blank-query blur on mobile (search.js:40-42), the Enter blur on mobile (search.js:121-123), the focus after a clear (search.js:131), Ctrl/Cmd+K (search.js:148-156), a focus by the user (`OnFocus`) and a blur by the user (`OnBlur`) set that flag.
- User-agent sniffing (search.js:12) is the constructor parameter `isMobile`.
- `console.log` (search.js:176) and the autocorrect attributes (search.js:179-184) are left out as UI plumbing. Of the Ctrl/Cmd+K shortcut only the focus is modelled (`OnKeyDown`); `preventDefault` is left out.
- The outside-click handler (search.js:136-140) is left out. It refers to a `searchContainer` that the script never declares, so on mobile it throws a ReferenceError unless the page has an element with id `searchContainer`, which browsers expose as a global of that name. The markup is not part of this model, so the handler is left out either way.
- A link with no `.materia-name` or `.materia-desc` child, or outside any `.modulo`, is not modelled. The script then throws a TypeError in the middle of the pass (search.js:51-52, 58). The model assumes every link has both children and an enclosing module.
- Touch coordinates (`clientX`) are integers here. The host gives floating-point values.
- The model starts from a page with no `hidden` or `highlight` class and no inline display. Classes in the markup as served are not modelled.

- FilterSpec.Pass: the per-module tally is a `map`, not the script's plain object. For a module named after a member of `Object.prototype` ("constructor", "toString", "__proto__", "hasOwnProperty", "valueOf" and the others `JsObjectCounts.IsPrototypeName` lists) the module flag it states is the intended one, not the script's. For a prototype name other than "__proto__", the script shows the module when none of its links matched and hides it when exactly one did; the map does the opposite in both cases, and the two agree from two matches on (`ConstructorUnmatchedShown`, `ToStringModuleShown`, `ConstructorModuleHidden`, `ConstructorTwiceShown`). A "__proto__" module is never hidden by the script (`ProtoModuleNeverHidden`). `JsObjectCounts` models the object and proves that the two agree on every other name (`HiddenAgreesOffPrototype`).
- SearchBox.SearchBox.PerformSearch: the same divergence, since it is proved equal to `FilterSpec.Pass`.
- SearchBox.SearchBox.CountMatch: the tally step on the map; the step on the object is `JsObjectCounts.TallyAsWritten`.
- SearchBox.SearchBox.HideUnmatchedModules: the module test on the map; the test on the object is `JsObjectCounts.HiddenAsWritten`.

## Findings

| source | as written | input that shows it | evidently intended | confidence | as-written member | corrected member |
|---|---|---|---|---|---|---|
| search.js:23-78 | `moduleResults` is the object literal `{}`, so a module name inherits the members of `Object.prototype` | a module named "constructor" whose one link matches is hidden (the inherited function is truthy and is never reset to 0, and `++` makes it NaN); a module named "toString" with no match stays visible | a tally with no entries other than the module names counted, such as `Object.create(null)` or a `Map` | not executed | JsObjectCounts.ConstructorModuleHidden | Matching.ModuleUnmatchedIff |
