# BurpGPT Analyzer: sensitive-data masking, modelled in Dafny

BurpGPT Analyzer is a Burp Suite extension. It sends HTTP requests and
responses to a text-generation service for security analysis. Before any
text leaves the extension, `DataMasker.mask` redacts substrings that look
like secrets. This project models that masking engine and the path in
`BurpAiRequestTab` that builds the prompt and hands it over.

- **DataMasker** (`data_masker.dfy`) models `mask`, `maskPattern` and the
  ordered table of eight rules. The rules are API key, authorization,
  password, session cookie, JWT, credit card, e-mail and SSN, with capture
  groups 4, 4, 4, 3, 1, 0, 0 and 0. It also models the `originalValues`
  map:
  - `mask` passes `null` and `""` through and leaves the map alone;
  - any other input first clears the map;
  - each masked value is stored under `"masked_" + size`.

  A value is masked only when its group is present and longer than 4
  characters. It becomes its first 4 characters followed by one `*` for
  each remaining character. The replacement text for a match is
  `group().replace(value, masked)`. That call is modelled with
  `Strings.ReplaceAll`. It scans the match text from the left, rewrites
  each occurrence of the value it meets and resumes after it, so when two
  occurrences overlap only the left one is rewritten. Text outside the matches is
  copied through, as `appendReplacement`/`appendTail` do; the replacement
  is made literal by `quoteReplacement`.
- **Matching** (`matching.dfy`) is the regular-expression engine as an
  interface. A finder returns, for a text, the successive non-overlapping
  matches of `Matcher.find`. Each match holds its whole span and its
  capture groups, and a group that took no part is `None`.
  - `ValidFinder` is the promise every engine keeps: the matches lie in
    the text, are sorted and disjoint, and carry the rule's group index.
  - The six text-shaped patterns stay abstract engines (`DataMasker.Engines`).
- **Recognisers** (`recognisers.dfy`) writes out two of the patterns as
  hand-written anchored matchers: `CardEnd` for the credit-card pattern
  `(?:\d{4}[-\s]?){3}\d{4}` and `SsnEnd` for the SSN pattern
  `\b\d{3}[-\s]?\d{2}[-\s]?\d{4}\b`. Each comes with a left-to-right
  scan that is proved sound and complete against its anchored matcher.
  That the matchers agree with Java's regular-expression semantics is not
  proved; `\b` is approximated (see Left out).
- **Keys** (`keys.dfy`) models the `"masked_" + n` keys and the map that
  `put` builds up, as a map indexed by insertion order.
- **Strings** (`strings.dfy`) holds `String.replace` (`ReplaceAll`),
  `"*".repeat` (`Stars`), and `StarOrSame`. `StarOrSame(a, b)` means `b`
  is `a` with some characters turned into `*`.
- **RequestTab** (`request_tab.dfy`) models three things:
  - `buildPromptText`: no prompt when there is neither a request to
    analyse nor custom text; otherwise the notice, the analysis section
    with the masked request and response, the closing instructions, and
    the unmasked custom text;
  - the check for a missing prompt in `analyzeRequest`, with its message;
  - the second `mask` of the whole prompt before it is sent.
- **MaskerExamples** (`masker_examples.dfy`) works three inputs of
  `DataMaskingTest` through the one rule that masks each of them
  (`MaskPattern`, not the whole of `Mask`): the SSN, the credit card and
  the form password, with the password match given by hand because the
  password pattern is an abstract engine. It also holds the
  counterexample listed under Findings.

The static `originalValues` map becomes explicit state (`MaskerState`),
passed into and returned from every call. The prompt texts are a
`RequestTab.Texts` record; `RequestTab.SourceTexts` holds the source's
literals.

`DataMasker.Policy` picks how a masked value is written into its match:
- `AsWritten` is `group().replace(value, masked)`, as the code does it;
- `InPlace` masks the captured group at its own position.

Every pipeline lemma is proved for both policies. The request tab takes a
policy as well, and `AsWritten` is the source's behaviour.

`DataMasker.java` uses one threshold (longer than 4), one reveal (the
first 4 characters) and one mask character (`*`) for every rule.

## Model

| member | source | states |
|---|---|---|
| DataMasker.MaskValue | src/main/java/ai/utils/DataMasker.java:74-77 | the masked value has the original's length, starts with the value's first 4 characters and is stars after them; a value of 4 or fewer characters is left as it is |
| DataMasker.MaskValueStarsAndIdempotent | src/main/java/ai/utils/DataMasker.java:76-77 | masking only turns characters into `*`, and masking a masked value changes nothing more |
| DataMasker.MaskedPiece | src/main/java/ai/utils/DataMasker.java:73-86 | the text that replaces a match is as long as the match, and a match whose group is missing or at most 4 characters long is copied verbatim |
| DataMasker.MaskedPieceStarOrSame | src/main/java/ai/utils/DataMasker.java:83-86 | the replacement for a match differs from the match text only by characters turned into `*` |
| DataMasker.MaskOneVerbatim | src/main/java/ai/utils/DataMasker.java:85-86 | a match that is not masked is appended unchanged and stores nothing in `originalValues` |
| DataMasker.MaskOneRecords | src/main/java/ai/utils/DataMasker.java:80-81 | one match adds to the map exactly its masked value, if any, under the next `masked_` key |
| DataMasker.MaskFrom | src/main/java/ai/utils/DataMasker.java:72-89 | the `find` loop from a given match and position onward produces exactly as many characters as remain of the input |
| DataMasker.MaskFromStarOrSame | src/main/java/ai/utils/DataMasker.java:72-89 | the rest of the text from any point of the loop comes out with only characters turned into `*` |
| DataMasker.MaskFromPieceAt | src/main/java/ai/utils/DataMasker.java:84 | every later match's replacement sits exactly at that match's span of the output |
| DataMasker.MaskFromGapAt | src/main/java/ai/utils/DataMasker.java:89 | every character outside the remaining matches is copied unchanged, as `appendReplacement` and `appendTail` copy it |
| DataMasker.MaskFromPuts | src/main/java/ai/utils/DataMasker.java:80-81 | the loop puts into the map exactly the masked values of the remaining matches, in match order |
| DataMasker.MaskFromIgnoresStore | src/main/java/ai/utils/DataMasker.java:72-89 | the masked text never depends on what the map held |
| DataMasker.MaskPattern | src/main/java/ai/utils/DataMasker.java:68-92 | `maskPattern` returns a text as long as its input |
| DataMasker.MaskPatternStarOrSame | src/main/java/ai/utils/DataMasker.java:68-92 | `maskPattern` changes the input only by turning characters into `*` |
| DataMasker.MaskPatternCharacterisation | src/main/java/ai/utils/DataMasker.java:72-89 | the output of `maskPattern` is each match's replacement at the match's own span and the input everywhere else |
| DataMasker.MaskPatternPieces | src/main/java/ai/utils/DataMasker.java:83-84 | each match's span of the output holds that match's replacement |
| DataMasker.MaskPatternPieceAt | src/main/java/ai/utils/DataMasker.java:83-84 | the span of match `j` in the output is match `j`'s replacement |
| DataMasker.MaskPatternGaps | src/main/java/ai/utils/DataMasker.java:84-89 | every character outside all matches is unchanged |
| DataMasker.MaskPatternGapAt | src/main/java/ai/utils/DataMasker.java:84-89 | one character outside all matches is unchanged |
| DataMasker.MaskPatternRecords | src/main/java/ai/utils/DataMasker.java:80-81 | a map indexed `masked_0 .. masked_{n-1}` grows by this rule's masked values under `masked_n`, `masked_n+1`, ... |
| DataMasker.MaskPatternOneMatch | src/main/java/ai/utils/DataMasker.java:72-89 | with a single match the output is the text before it, its replacement and the text after it |
| DataMasker.ValuesAreMaskedGroups | src/main/java/ai/utils/DataMasker.java:73-81 | every stored value is the selected group of some match longer than 4 characters, and when no match qualifies nothing is stored |
| DataMasker.ValueFromMaskedGroup | src/main/java/ai/utils/DataMasker.java:73-81 | the `n`-th stored value is the selected group of a match that was masked |
| DataMasker.NoMaskedGroupsNoValues | src/main/java/ai/utils/DataMasker.java:74 | when no group passes the `length() > 4` guard the rule stores nothing |
| DataMasker.AsWrittenMasksOccurrences | src/main/java/ai/utils/DataMasker.java:83 | `group().replace(v, masked)` masks the leftmost occurrence of `v` in the match text (first 4 characters kept, the rest stars), and it changes only characters inside occurrences of `v` |
| DataMasker.InPlaceMasksGroup | src/main/java/ai/utils/DataMasker.java:73-77 | the corrected replacement masks the captured group at its own position and leaves the rest of the match text unchanged |
| DataMasker.PoliciesAgreeOnSingleOccurrence | src/main/java/ai/utils/DataMasker.java:83 | when the value occurs in the match text only at its group's position, the code's `replace` and the in-place masking give the same text |
| DataMasker.RulesValid | src/main/java/ai/utils/DataMasker.java:15-22 | with well-behaved engines for the six text patterns, all eight rules yield matches that carry their capture group |
| DataMasker.ApplyRules | src/main/java/ai/utils/DataMasker.java:36-62 | applying the rules keeps the text's length |
| DataMasker.ApplyRulesStarOrSame | src/main/java/ai/utils/DataMasker.java:36-62 | the rules together change the text only by turning characters into `*` |
| DataMasker.ApplyRulesPuts | src/main/java/ai/utils/DataMasker.java:38-60 | the rules put into the map exactly the values each rule masked, rule by rule |
| DataMasker.ApplyRulesRecords | src/main/java/ai/utils/DataMasker.java:35-60 | starting from the cleared map, the map ends as `masked_0 ..` holding every masked value in rule and match order |
| DataMasker.ApplyRulesIgnoresStore | src/main/java/ai/utils/DataMasker.java:38-60 | the masked text does not depend on the map |
| DataMasker.ApplyRulesStep | src/main/java/ai/utils/DataMasker.java:38-60 | the first rule runs on the input and the remaining rules run on its output |
| DataMasker.Mask | src/main/java/ai/utils/DataMasker.java:30-63 | `null` and `""` come back unchanged with the map untouched; any other input comes back with only characters turned into `*`, and the map is cleared and then holds exactly the values masked in this call |
| DataMasker.MaskTextIgnoresState | src/main/java/ai/utils/DataMasker.java:35 | since the map is cleared first, the masked text of a call does not depend on earlier calls |
| DataMasker.MaskIsOrderedComposition | src/main/java/ai/utils/DataMasker.java:38-60 | `mask` is the composition of the eight `maskPattern` passes in source order: API key, authorization, password (group 4), session cookie (group 3), JWT (group 1), credit card, e-mail, SSN (group 0) |
| DataMasker.FirstFourRules | src/main/java/ai/utils/DataMasker.java:38-48 | the first four rules are the API-key, authorization, password and session-cookie passes in that order |
| DataMasker.LastFourRules | src/main/java/ai/utils/DataMasker.java:50-60 | the last four rules are the JWT, credit-card, e-mail and SSN passes in that order |
| Keys.Decimal | src/main/java/ai/utils/DataMasker.java:80 | the map size is rendered as a non-empty string of decimal digits |
| Keys.Key | src/main/java/ai/utils/DataMasker.java:80 | a key starts with `masked_` and is longer than that prefix |
| Keys.KeyDigits | src/main/java/ai/utils/DataMasker.java:80 | after `masked_` a key holds only decimal digits, and they read back as the map size it was made from |
| Keys.KeyInjective | src/main/java/ai/utils/DataMasker.java:80 | different map sizes give different keys, so `put` never overwrites a value stored in the same call |
| Keys.ParseDecimalInvertsDecimal | src/main/java/ai/utils/DataMasker.java:80 | the decimal rendering of the size can be read back, so it is injective |
| Keys.IndexedShape | src/main/java/ai/utils/DataMasker.java:80-81 | after `n` puts on a cleared map it has exactly `n` entries, `masked_i` holds the `i`-th value, and there are no other keys |
| Keys.PutAppends | src/main/java/ai/utils/DataMasker.java:80-81 | one `put` under `masked_ + size` appends the value at the next index |
| Keys.PutAllAppends | src/main/java/ai/utils/DataMasker.java:80-81 | a run of `put`s appends its values in order |
| Keys.PutAllConcat | src/main/java/ai/utils/DataMasker.java:80-81 | two runs of `put`s are one run of the concatenated values |
| Strings.Stars | src/main/java/ai/utils/DataMasker.java:77 | `"*".repeat(n)` is `n` stars |
| Strings.ReplaceAll | src/main/java/ai/utils/DataMasker.java:83 | replacing with a value of equal length keeps the length, and replacing with a star-masked version only turns characters into `*` |
| Strings.ReplaceAllWithoutOccurrence | src/main/java/ai/utils/DataMasker.java:83 | `replace` on a text without an occurrence returns the text |
| Strings.ReplaceAllAtFirstOccurrence | src/main/java/ai/utils/DataMasker.java:83 | `replace` rewrites the leftmost occurrence and continues after it |
| Strings.ReplaceAllChangesOnlyOccurrences | src/main/java/ai/utils/DataMasker.java:83 | every character `replace` changes lies inside an occurrence of the target |
| Strings.ReplaceAllChangeAt | src/main/java/ai/utils/DataMasker.java:83 | a changed character at `i` lies inside an occurrence of the target |
| Strings.ReplaceAllSelf | src/main/java/ai/utils/DataMasker.java:83 | when the match text is the value itself (rules with group 0), `replace` yields the masked value |
| Recognisers.SkipSeparator | src/main/java/ai/utils/DataMasker.java:19-21 | the optional `[-\s]?` consumes one dash or whitespace character, or nothing |
| Recognisers.MatchEnd | src/main/java/ai/utils/DataMasker.java:19-21 | a credit-card match spans 16 to 19 characters and an SSN match 9 to 11 |
| Recognisers.Scan | src/main/java/ai/utils/DataMasker.java:72 | the successive `find` results start at or after the scan point, lie in the text, and are sorted and disjoint |
| Recognisers.ScanSkips | src/main/java/ai/utils/DataMasker.java:72 | positions where the pattern does not match are skipped |
| Recognisers.ScanSound | src/main/java/ai/utils/DataMasker.java:72 | every reported match is a match of the pattern at its start |
| Recognisers.ScanWellFormed | src/main/java/ai/utils/DataMasker.java:72 | the scan's matches are well formed for group 0 |
| Recognisers.ScanMissesNothing | src/main/java/ai/utils/DataMasker.java:72 | every position where the pattern matches is covered by a reported match |
| Recognisers.Find | src/main/java/ai/utils/DataMasker.java:72 | finding matches gives well-formed, sorted, disjoint matches |
| Recognisers.FindSoundAndComplete | src/main/java/ai/utils/DataMasker.java:19-21 | the credit-card and SSN finders report only pattern matches and leave no matching position uncovered |
| Recognisers.FindCreditCards | src/main/java/ai/utils/DataMasker.java:19 | the credit-card finder's matches are well formed for group 0 |
| Recognisers.FindSsns | src/main/java/ai/utils/DataMasker.java:21 | the SSN finder's matches are well formed for group 0 |
| Recognisers.RecognisersAreValidFinders | src/main/java/ai/utils/DataMasker.java:54-60 | the two written-out recognisers keep the promise required of every engine used with group 0 |
| RequestTab.SourceNoticeNonEmpty | src/main/java/ai/BurpAiRequestTab.java:319 | the source's security notice is not empty |
| RequestTab.SentPromptFrame | src/main/java/ai/BurpAiRequestTab.java:152-177 | a prompt that is sent starts with the notice, and what is sent is `mask` of that whole prompt |
| RequestTab.SourceAnalyzeRequest | src/main/java/ai/BurpAiRequestTab.java:152-177 | with the source's literals: nothing is sent exactly when there is no request and no custom text, the pane then shows `Empty custom prompt or HTTP request.` and the map is untouched; a sent prompt starts with the source's notice and is masked as a whole |
| RequestTab.LayoutStarOrSame | src/main/java/ai/BurpAiRequestTab.java:319-359 | a layout built from masked request and response differs from the raw layout only by `*`s |
| RequestTab.ConcatPositions | src/main/java/ai/BurpAiRequestTab.java:319-359 | where each appended piece sits in the built prompt |
| RequestTab.LayoutPositions | src/main/java/ai/BurpAiRequestTab.java:319-359 | the prompt starts with the notice and ends with the custom text; when analysing, the heading, the masked request and the response section sit in that order |
| RequestTab.LayoutRequestSection | src/main/java/ai/BurpAiRequestTab.java:321-343 | in an analysing prompt the request follows the notice, heading and `REQUEST:` label |
| RequestTab.LayoutResponseSection | src/main/java/ai/BurpAiRequestTab.java:345-351 | in an analysing prompt with a response, the `RESPONSE:` label and response follow the request |
| RequestTab.MaskBoth | src/main/java/ai/BurpAiRequestTab.java:340-350 | after masking request then response, the map holds the response's values if it is non-empty, else the request's if that is non-empty, else what it held before |
| RequestTab.AnalysedPrompt | src/main/java/ai/BurpAiRequestTab.java:321-359 | the analysing branch lays out the masked request and response, which differ from the raw texts only by `*`s |
| RequestTab.BuildPromptText | src/main/java/ai/BurpAiRequestTab.java:310-365 | `null` exactly when there is no request to analyse and no custom text; otherwise the prompt is the raw layout with only characters turned into `*`; without analysis the map is untouched |
| RequestTab.PromptFrame | src/main/java/ai/BurpAiRequestTab.java:319-359 | every prompt starts with the notice and ends with the custom text, unmasked |
| RequestTab.PromptWithoutRequest | src/main/java/ai/BurpAiRequestTab.java:311-359 | without a request to analyse but with custom text, the prompt is the notice followed by the custom text, and a response is ignored |
| RequestTab.PromptRequestSection | src/main/java/ai/BurpAiRequestTab.java:321-343 | when analysing, the heading (naming the response only when there is one) and `REQUEST:` label are followed by the masked request |
| RequestTab.PromptResponseSection | src/main/java/ai/BurpAiRequestTab.java:345-351 | with a response, `RESPONSE:` and the masked response follow the request |
| RequestTab.PromptState | src/main/java/ai/BurpAiRequestTab.java:340-347 | after building an analysing prompt the map holds the values of the last non-empty text masked |
| RequestTab.PromptIgnoresState | src/main/java/ai/BurpAiRequestTab.java:310-365 | the prompt text does not depend on what earlier calls left in the map |
| RequestTab.AnalyzeRequest | src/main/java/ai/BurpAiRequestTab.java:145-177 | nothing is sent and the pane shows the empty-prompt message exactly when there is no request and no custom text; otherwise the sent text is `mask` of the whole prompt, differs from the raw prompt only by `*`s, and the map holds that call's values |
| RequestTab.SentIgnoresState | src/main/java/ai/BurpAiRequestTab.java:152-177 | what is sent, and the map afterwards, do not depend on the map before |
| MaskerExamples.SsnFound | src/main/java/ai/utils/DataMasker.java:21 | in `ssn=123-45-6789` the SSN pattern finds exactly `123-45-6789` |
| MaskerExamples.SsnExample | src/main/java/ai/utils/DataMaskingTest.java:34 | the SSN rule turns `ssn=123-45-6789` into `ssn=123-*******` and stores `masked_0 -> 123-45-6789` |
| MaskerExamples.CardFound | src/main/java/ai/utils/DataMasker.java:19 | in `cc_number=4111-1111-1111-1111` the credit-card pattern finds exactly the 19-character number |
| MaskerExamples.CreditCardExample | src/main/java/ai/utils/DataMaskingTest.java:31 | the credit-card rule turns `cc_number=4111-1111-1111-1111` into `cc_number=4111***************` |
| MaskerExamples.PasswordPiece | src/main/java/ai/utils/DataMasker.java:83 | for the password match, `replace` masks the password after `password=` |
| MaskerExamples.PasswordExample | src/main/java/ai/utils/DataMaskingTest.java:23 | the password rule turns `password=SuperSecretPassword123&username=john` into `password=Supe******************&username=john` and stores `masked_0 -> SuperSecretPassword123` |
| MaskerExamples.AsWrittenLeavesGroupTail | src/main/java/ai/utils/DataMasker.java:83 | on `token=token=token` the code's `replace` masks the cookie name and leaves `=token` of the captured value in clear |
| MaskerExamples.InPlaceMasksGroupTail | src/main/java/ai/utils/DataMasker.java:73-77 | the corrected masking of the same match gives `token=toke*******` |

## Left out

- The other six regular expressions (API key, authorization, password,
  session cookie, JWT, e-mail) are not written out. They are abstract
  finders that promise only well-formed, sorted, disjoint matches, so
  case-insensitive matching and backtracking are not modelled for them.
- The SSN pattern's `\b` is approximated by an ASCII word boundary
  (letters, digits, `_`). Java's `\b` also counts other letters and digits
  (before Java 19) and a non-spacing mark after a word character, so on
  `123-45-6789` followed by U+0301 Java finds no SSN where the model finds
  one. `\d` is an ASCII digit, as in Java without `UNICODE_CHARACTER_CLASS`.
- One Dafny `char` stands for one Java `char`. That is exact only for
  text inside the Basic Multilingual Plane, because a Dafny `char` is a
  Unicode scalar value and cannot be half of a surrogate pair. For text
  outside it, Java's `length() > 4` test, its 4-unit prefix and its star
  count at DataMasker.java:74-77 count UTF-16 code units and differ from
  the model. For example, `a` followed by two emoji is 5 code units in
  Java and is masked, with the prefix splitting a surrogate pair; the
  model sees 3 characters and leaves the value in clear.
- `originalValues` is a static map shared by the executor's threads.
  The model passes it from call to call in sequence, so interleavings
  are not modelled.
- `getMaskedValueCount` and the log line (BurpAiRequestTab.java:174-176)
  are not modelled, because `getMaskedValueCount` is not defined in
  DataMasker.java.
- `getDetectedSensitiveDataTypes` and `clearData`, called at
  BurpAiRequestTab.java:198 and :258, are left out; DataMasker.java does
  not define them.
- The Swing user interface, the HTML status banner, the font, the call to
  the text-generation client and the rendering of its answer
  (BurpAiRequestTab.java:157-168 and 178 onwards) are left out. The model
  ends with the text handed to the client.
- `analyzeRequest`'s `includeRequestResponse` parameter is unused in the
  source (the prompt is always built with `true`), so it is not modelled.
- `HttpRequest.toString()` and `HttpResponse.toString()` are foreign
  calls. The request and response appear as their text, `None` for `null`.
- `customInput` comes from a text field and is never `null`, so it is a
  plain string.
- DataMasker.MaskPattern: states only length preservation in its own
  contract. The content facts are in the separate lemmas
  `MaskPatternStarOrSame` and `MaskPatternCharacterisation`.
- DataMasker.ApplyRules: states only length preservation in its own
  contract. The star-only change is in `ApplyRulesStarOrSame`.

## Findings

| source | as written | input that shows it | evidently intended | confidence | as-written member | corrected member |
|---|---|---|---|---|---|---|
| src/main/java/ai/utils/DataMasker.java:83 | `matcher.group().replace(valueToMask, maskedValue)` rewrites occurrences of the value in the match text, starting with the leftmost, and not the captured group at its own position | session-cookie rule (group 3) on `token=token=token`: the group is `token=token` at offset 6, but its leftmost occurrence is at offset 0, so the match becomes `toke*******=token` and `=token`, the tail of the captured value, stays in clear | mask the captured group where it was captured: `token=toke*******` | not executed; the rewrite is certain for this input, though the input is contrived | MaskerExamples.AsWrittenLeavesGroupTail | MaskerExamples.InPlaceMasksGroupTail |

The general forms are `DataMasker.AsWrittenMasksOccurrences` for the code
as written and `DataMasker.InPlaceMasksGroup` for the corrected masking.
`DataMasker.PoliciesAgreeOnSingleOccurrence` shows that the two agree
whenever the value occurs in its match only at the group's position,
which is the usual case.
