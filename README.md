# Text Transformer: suggestion translation and commit

This project models the core of the Text Transformer editor plugin: the
code in `src/textTransformer.ts` that turns an AI-revised version of a
piece of a note into reviewable suggestions.

- **Guard.** Before anything changes, the transformer checks five
  conditions in order. It aborts when:
  - the input is blank;
  - suggestions are already under review;
  - the AI request failed or returned no text;
  - the active file changed while the request was in flight;
  - the word diff of the two texts, both with normalised line endings,
    holds no added or removed part.
- **Translator.** A loop over the diff parts builds the text to insert and
  the suggestion marks.
  - Unchanged parts are appended with their line endings normalised, and
    get no mark.
  - Added and removed parts are cut into segments:
    - each line break (`\n`, `\r\n` or `\r`) is one segment. It is shown
      as a one-character symbol: `↵` when added, `¶` when removed.
    - each maximal run without a line break is one segment, copied as it is.
  - Every segment gets a mark over the place it lands in the document, with
    the next suggestion id.
- **Commit.** One editor update:
  - replaces the target range by the inserted text;
  - clears the suggestion store;
  - installs the marks with the scope the new text occupies;
  - puts the cursor at the end of the new text.
  The translation runs first and hands out the ids. When the range reaches
  past the end of the document, the update then throws, and the document
  and the store stay as they were.
- **Around the commit.**
  - The paragraph around a bare cursor: two loops grow the cursor line up
    and down while the neighbouring line is not blank.
  - The line window of the dynamic context.
  - The `{language}` substitution in the translate prompt.

Modules, one per file:

| module | file | content |
|---|---|---|
| `Wrappers` | `wrappers.dfy` | `Option` |
| `JsStrings` | `strings.dfy` | the JavaScript string operations the core uses |
| `SuggestionMarks` | `marks.dfy` | diff parts, marks, the newline symbols, placement predicates |
| `Segmentation` | `segmentation.dfy` | how a changed part's value is cut into segments, and why that cut is the only one possible |
| `Translator` | `translator.dfy` | the specification functions, and the loop as methods proved against them |
| `TranslatorProperties` | `translator_props.dfy` | what the translation guarantees |
| `SuggestionState` | `suggestion_state.dfy` | the store (a class with `Clear` and `Set`) and the id counter |
| `Editor` | `editor.dfy` | the document (a class holding text and cursor) and its splice |
| `Paragraph` | `paragraph.dfy` | lines joined by `\n`, `lineAt`, the paragraph expansion loops, the choice of target |
| `TextTransformer` | `transformer.dfy` | context window, prompt, guard and the guarded commit |

`Translator.InsertText(parts)` and `Translator.MarksFrom(parts, base, id)`
are the reference definitions of what the loop produces.
`TextOfParts(parts, 0)` and `MarksOfParts(parts, 0, base, id)` are the same
values, written so that loop invariants can name what is left to do.

The emptiness check (line 43) comes before the active-suggestions check
(lines 48-55). The active-suggestions check reads the store before the AI
request, and the commit does not look at it again; "## Findings" shows
what that allows.

## Model

| member | source | states |
|---|---|---|
| JsStrings.IndexOf | src/textTransformer.ts:223 | `indexOf(pat, from)` is the first position at or after `from` where `pat` occurs, or -1 exactly when it occurs nowhere from there |
| JsStrings.OccursAt | src/textTransformer.ts:196-202 | `startsWith(pat, i)`: the text holds `pat` at index `i` |
| JsStrings.Substitution | src/textTransformer.ts:144-147 | the replacement of a string `replace`, with `$$`, `$&`, `` $` `` and `$'` expanded; a replacement without `$` is used as it reads |
| JsStrings.SubstitutionPatterns | src/textTransformer.ts:144-147 | `$$` gives `$`, `$&` the matched text, `` $` `` the text before, `$'` the text after, and `$1` stays literal when there are no capture groups |
| JsStrings.ReplaceFirst | src/textTransformer.ts:144-147 | string `replace` with a string pattern changes only the first occurrence, into the expanded replacement; with no occurrence the text is returned unchanged |
| JsStrings.Trim | src/textTransformer.ts:43 | trimming gives the empty string exactly when every character is whitespace, and what it keeps starts and ends with a non-whitespace character |
| JsStrings.TrimIsBetween | src/textTransformer.ts:43 | what `trim` returns is the piece of the text with only whitespace before and after it |
| JsStrings.IsBlank | src/textTransformer.ts:43 | `trim() === ""`: the text is empty or whitespace only |
| JsStrings.NormalizeLineEndings | src/textTransformer.ts:173-174 | replacing `\r\n` and `\r` by `\n` leaves no `\r` and never lengthens the text |
| JsStrings.NormalizeIdempotent | src/textTransformer.ts:245 | normalising text that was already normalised (the diff's input at 173-176) changes nothing |
| SuggestionMarks.NewlineSymbol | src/textTransformer.ts:21-22 | the line-break symbol is one character long, and it is the "added" symbol exactly for added parts |
| SuggestionMarks.OrderedStartsIncrease | src/textTransformer.ts:192 | non-empty, non-overlapping marks start at strictly increasing offsets |
| Segmentation.MinFound | src/textTransformer.ts:224 | one `Math.min` step of the `forEach`, with an index of -1 ignored and no index yet read as infinity |
| Segmentation.StartsWithChainFindsBreak | src/textTransformer.ts:196-205 | the `startsWith` chain gives a break length of 1 for `\n`, 2 for `\r\n`, 1 for a lone `\r`, and 0 when no break starts there |
| Segmentation.EarliestBreakEndsRun | src/textTransformer.ts:221-230 | the minimum of the three `indexOf` results (or the end of the value when none is found) is the end of the maximal run without a break |
| Segmentation.SegmentAtFacts | src/textTransformer.ts:196-231 | a segment is the value's own text; it is a line break exactly when a break character starts there; a plain segment holds no `\n` or `\r` and is maximal |
| Segmentation.SegmentsTile | src/textTransformer.ts:191-242 | the segments of a value, taken in order, spell the value |
| Segmentation.SegmentsWellSegmented | src/textTransformer.ts:191-242 | the segments are non-empty and well formed, and no two plain runs are adjacent |
| Segmentation.SegmentationUnique | src/textTransformer.ts:191-242 | any well-formed segmentation that spells the value is the one the scan produces |
| Segmentation.SegmentsEmptyIff | src/textTransformer.ts:191 | a value has no segments exactly when it is empty |
| Segmentation.BreaksAsLfNormalizes | src/textTransformer.ts:216 | reading every line-break segment as `"\n"` (the mark's `newlineChar`) gives the value with normalised line endings |
| Translator.IsChanged | src/textTransformer.ts:189 | the part is added or removed |
| Translator.MarkTypeOf | src/textTransformer.ts:214-238 | an added part gives "added" marks, any other changed part "removed" ones |
| Translator.InsertText | src/textTransformer.ts:182-249 | the reference text to insert: unchanged parts with normalised line endings, changed parts as their segments' substitutes, in order |
| Translator.MarksFrom | src/textTransformer.ts:182-249 | the reference marks: one per segment of each changed part, placed at the base plus the text before it, with consecutive ids |
| Translator.TranslateDiff | src/textTransformer.ts:182-249 | the loop over the parts returns exactly the reference insert text and marks, and the next free id is the first id plus the number of marks |
| Translator.TranslatePart | src/textTransformer.ts:186-248 | one iteration of the part loop yields that part's text and marks |
| Translator.TranslateChangedPart | src/textTransformer.ts:189-243 | the `while` loop over a changed part's value yields its substitute text and one mark per segment, and terminates |
| Translator.NextSegment | src/textTransformer.ts:192-231 | the segment the loop body consumes at a position is the one the segmentation defines, and it is not empty |
| Translator.NextNewlineIndex | src/textTransformer.ts:221-225 | the `forEach` over `\n`, `\r\n`, `\r` finds the earliest position at which any of them occurs |
| TranslatorProperties.SegmentMarkAt | src/textTransformer.ts:192-236 | the i-th mark of a part starts at the part's base plus the length of the substitutes before it, and has the i-th id |
| TranslatorProperties.SegmentMarkSpans | src/textTransformer.ts:207-239 | the i-th mark spans exactly the i-th segment's substitute, with that segment's kind and the part's type |
| TranslatorProperties.PartMarksEmptyIff | src/textTransformer.ts:189-248 | a part gets no marks exactly when it is unchanged or its value is empty |
| TranslatorProperties.UnchangedPartText | src/textTransformer.ts:244-247 | an unchanged part contributes its value with line endings normalised, which holds no `\r` |
| TranslatorProperties.PartMarksPlaced | src/textTransformer.ts:207-241 | a part's marks are ordered, do not overlap and are non-empty; a newline mark spans its one-character symbol and carries `"\n"`; a plain mark spans text without breaks |
| TranslatorProperties.PartMarksIds | src/textTransformer.ts:211-235 | a part's marks carry consecutive ids |
| TranslatorProperties.PartMarksTile | src/textTransformer.ts:191-242 | a changed part's marks leave no gap: they cover its substitute text from the first offset to the last |
| TranslatorProperties.PartMarksPolarity | src/textTransformer.ts:214-238 | a mark's type is "added" exactly when its part is added |
| TranslatorProperties.ChangedPartMarkIsSegment | src/textTransformer.ts:207-239 | the marks of a changed part match its segments one to one: the symbol of its polarity for a break, the run itself otherwise |
| TranslatorProperties.PartReading | src/textTransformer.ts:213-237 | reading each mark of a changed part (`newlineChar` for a break, the spanned text otherwise) recovers the part's value with normalised line endings |
| TranslatorProperties.TranslationPlaced | src/textTransformer.ts:182-249 | the marks of the whole diff are ordered, non-overlapping and each covers its piece of the inserted text at `from = base + offset` |
| TranslatorProperties.TranslationIds | src/textTransformer.ts:211-235 | all marks carry consecutive ids from the first one handed out |
| TranslatorProperties.TranslationWellPlaced | src/textTransformer.ts:251-262 | the marks are non-empty, ordered and inside the scope that starts at `from` and is as long as the insert, with strictly increasing starts |
| TranslatorProperties.NoChangeTranslation | src/textTransformer.ts:244-247 | a diff with no added or removed part, over normalised text, gives no marks and inserts exactly the text the parts spell |
| SuggestionState.SuggestionStore.constructor | src/textTransformer.ts:48-49 | a fresh store holds no marks and no scope |
| SuggestionState.SuggestionStore.HasActive | src/textTransformer.ts:49 | the store holds at least one mark |
| SuggestionState.SuggestionStore.Clear | src/textTransformer.ts:255 | the clear-all effect leaves no marks and no scope |
| SuggestionState.SuggestionStore.Set | src/textTransformer.ts:256-262 | the set effect installs exactly the given well-placed marks and scope |
| SuggestionState.IdCounter.Take | src/textTransformer.ts:211-235 | handing out `count` ids returns the first and advances the counter by `count` |
| Editor.Splice | src/textTransformer.ts:253 | a splice keeps the text before the range, puts the insert at the range start, and keeps the text after the range |
| Editor.SpliceUndo | src/textTransformer.ts:253 | splicing the removed text back over the insert restores the original |
| Editor.Document.Slice | src/textTransformer.ts:342-345 | `sliceDoc(from, to)` is the document's text over `[from, to)`, character by character |
| Editor.Document.Replace | src/textTransformer.ts:253-264 | the document becomes the splice of its text, and the cursor sits just after the insert |
| Paragraph.LineAt | src/textTransformer.ts:329 | `doc.lineAt(pos)` is a line whose extent, from its start to its end, holds `pos` |
| Paragraph.IsParagraph | src/textTransformer.ts:330-340 | every line from `startLine` to `endLine` other than the cursor line is non-blank, and the line just outside each bound is blank or absent; the cursor line itself is not tested, so a blank cursor line joins the non-blank runs above and below it |
| Paragraph.ExpandUp | src/textTransformer.ts:332-334 | the first loop stops at line 1 or below a blank line, and every line it passed is non-blank |
| Paragraph.ExpandDown | src/textTransformer.ts:335-340 | the second loop stops at the last line or above a blank line, and every line it passed is non-blank |
| Paragraph.ExpandParagraph | src/textTransformer.ts:330-340 | the two loops stop at the bounds `IsParagraph` fixes: the non-blank lines above and below the cursor line, together with the cursor line whether it is blank or not, up to a blank line or the document's ends |
| Paragraph.ParagraphText | src/textTransformer.ts:341-342 | the text from the start of the first line to the end of the last line is those lines joined by `\n` |
| Paragraph.ParagraphAt | src/textTransformer.ts:327-343 | the paragraph range holds the cursor; its text is the slice of the range, which is the paragraph's lines joined |
| Paragraph.TextTarget | src/textTransformer.ts:325-348 | a non-empty selection is taken as it is; a bare cursor widens to the paragraph around its line, from the start of the paragraph's first line to the end of its last, and the text is those lines joined; either way the text is what the document holds over the range |
| TextTransformer.SelectionLines | src/textTransformer.ts:86-93 | the selection's lines are its anchor and head lines in order, or the cursor line when nothing is selected |
| TextTransformer.ContextWindow | src/textTransformer.ts:94-98 | the window is cut to the document's lines, reaches at most `around` lines past the selection, and contains the selection's lines |
| TextTransformer.SelectionContextWindow | src/textTransformer.ts:86-98 | the window is built from the selection's lines: it stays within the document, and it contains the anchor and head lines of a selection, or the cursor line otherwise |
| TextTransformer.TargetLanguage | src/textTransformer.ts:146 | the trimmed configured language, or "target language" when it is unset or blank |
| TextTransformer.PreparePrompt | src/textTransformer.ts:142-148 | only the translate prompt changes, and then only its text: the first `{language}` becomes the target language, with its `$` patterns expanded |
| TextTransformer.PreparePromptLiteral | src/textTransformer.ts:142-148 | a language without `$`, the generic wording among them, is inserted exactly as it reads |
| TextTransformer.DollarLanguageKeepsPlaceholder | src/textTransformer.ts:144-147 | a language typed as `$&` puts `{language}` back, so the prompt is sent as configured |
| TextTransformer.MatchLanguageKeepsPlaceholder | src/textTransformer.ts:144-147 | any configured language whose trimmed form is `$&` sends the translate prompt exactly as configured |
| TextTransformer.HasNewText | src/textTransformer.ts:163-167 | `!newText` fails: the reply carries text and it is not empty |
| TextTransformer.DiffOf | src/textTransformer.ts:173-176 | the word diff of the original and the new text, both with normalised line endings |
| TextTransformer.AnyChanged | src/textTransformer.ts:177 | some part of the diff is added or removed |
| TextTransformer.Guard | src/textTransformer.ts:43-180 | no abort exactly when all five checks pass; each abort reason holds exactly when its check is the first one to fail |
| TextTransformer.Validate | src/textTransformer.ts:43-180 | the early returns produce exactly the guard's verdict, and on success the diff of the normalised texts |
| TextTransformer.Translate | src/textTransformer.ts:182-249 | the part loop gives the reference insert text and marks, the marks lie in the scope the insert will occupy, and one id is handed out per mark |
| TextTransformer.Dispatch | src/textTransformer.ts:251-264 | the range is replaced by the insert, the store is cleared and then holds exactly the given marks over the scope the insert occupies, and the cursor goes to the end of the insert |
| TextTransformer.CommitOrThrow | src/textTransformer.ts:182-264 | the translation always runs and hands out one id per mark; the dispatch then throws exactly when the range reaches past the document's end, leaving document, cursor and store as they were, and otherwise commits in full |
| TextTransformer.Commit | src/textTransformer.ts:182-266 | the range is replaced by the inserted text, the store is cleared and given the marks over the scope the new text occupies, and the cursor goes to the end of the new text |
| TextTransformer.CommitPlacement | src/textTransformer.ts:251-264 | after the splice the scope holds exactly the inserted text, the text outside it is kept, and every mark lies in the scope |
| TextTransformer.ValidateAndApply | src/textTransformer.ts:29-276 | the checks use the store as it was before the request, the commit the document and store as they are after it; an abort leaves document, cursor, store and id counter untouched; the error the editor raises for a range past the document's end comes after the translation, so it leaves document, cursor and store untouched but has used one id per mark; otherwise the commit happens in full and the count reported is the number of marks |
| TextTransformer.RaceDropsReviewedMarks | src/textTransformer.ts:48-264 | on concrete values: a mark committed while the request was pending is dropped by the commit, and the replaced text is not the text that was sent |
| TextTransformer.ValidateAndApplyRechecked | src/textTransformer.ts:48-264 | with the store and the range checked again after the request, a commit happens exactly when every check passes, no marks are under review and the range still holds the original text |

## Left out

- The editor-version check (lines 37-41) and the `textTransformerDocumentCM6` entry point (lines 278-305) are left out. That entry point covers front matter and prompt choice. Both depend on editor and settings objects outside this file.
- Notices, their durations and the long-input thresholds (lines 55-62, 134-140, 268-274) are left out: they are user-interface output only.
- Context assembly (lines 64-132) is left out, except for the selection lines and the window clamp. It covers the custom context, the marker substitution and the whole-note read through the vault.
- The AI request and the choice of provider (lines 150-161) are not modelled. The request is modelled as its result, the `AiReply` input. `isOverlength` and `cost` only feed notices.
- `diffWordsWithSpace` is a library call. It is a function parameter, `diff`, and no property of it is assumed.
- The active file paths before and after the request are parameters, `fileBefore` and `fileAfter`.
- The check at line 48 asks for the store field without requiring it. A document with no such field is modelled as a store with no marks.
- `generateSuggestionId` is modelled by `IdCounter`: ids are consecutive numbers, and the commit takes them as one block. The real ids are unique strings.
- JavaScript `.length` counts UTF-16 code units, while the model counts characters. On text outside the Basic Multilingual Plane the positions differ: an emoji counts 2 in the source and 1 here, so the `from` and `to` of plain marks after it are not the source's. The model agrees with the source only on text within that plane, which includes both newline symbols.
- TextTransformer.ValidateAndApply: the request's `await` (lines 152-155) is not a step of the model. The method is given the store's state from before the request (`hadActive`), and the document and store as they are when the answer arrives. What happened between the two is not modelled, only its result.
- `Threw`: when the range reaches past the end of the document, the editor raises an error from `state.update` (line 252) before anything is dispatched. The translation before it has already run and used its ids, and the model keeps that. The model only records that the call ended this way.
- `TextChanged` is an abort only `ValidateAndApplyRechecked` raises. The source has no such check.
- The editor dispatch is one atomic transaction. It is modelled as three steps in a row, which nothing can observe in between. Scrolling and rendering the mark decorations are left out.
- The check for multiple selections and the missing-prompt check (lines 317-320, 349-352) are early returns before the core, and are left out.
- The scope label ("Document", "Selection", "Paragraph") is used in notices (lines 44, 51, 134) and in two context decisions. Line 86 picks the lines the dynamic context is built around, which `SelectionLines` models through its `selectionScope` argument. Line 118 decides whether the whole-note context gets the selection markers, and is part of the context assembly left out above. `Paragraph.Scope` models the label for the choice of target.
- The editor's own split of the document into lines is given: the document is its lines joined by `\n`.
- The loop bodies of lines 186-248 are separate methods: `TranslatePart`, `TranslateChangedPart`, `NextSegment` and `NextNewlineIndex`. The validation part of lines 43-180 is `Validate`. The update is `Translate` followed by `Dispatch`: `CommitOrThrow` as the source orders them, `Commit` over a range already known to lie in the document. `ValidateAndApply` also returns the diff it translated, so its contract can name it.
- `markStartPosInDoc` is recomputed as `from + offset` at each step in the source. The model tracks it next to the offset, and the invariant says they agree.
- SuggestionState.SuggestionStore.Valid: the store's invariant is inferred from how the marks are used, because `src/suggestion-state.ts` is not part of this model. This covers its effects, mark removal and accept/reject.
- TextTransformer.Prompt: only the five required fields of a prompt are modelled. The optional `model`, `temperature`, `frequency_penalty`, `presence_penalty`, `max_tokens` and `showInPromptPalette` (`src/settings-data.ts`) are left out. The copy at line 142 keeps them too, so `PreparePrompt`'s "only its text changes" covers the five modelled fields.
- TextTransformer.TargetLanguage: no assumption is made about the configured translation language beyond trimming.

## Findings

| source | as written | input that shows it | evidently intended | confidence | as-written member | corrected member |
|---|---|---|---|---|---|---|
| src/textTransformer.ts:48-264 | the store is checked for active suggestions (48-49) before the request is awaited (152-155), and the range `scopeRangeCm` was fixed by the caller before that; the commit (251-264) clears the store and splices the range without looking at either again | a first transformation's marks are committed while a second one's request is still pending, or the user edits the range meanwhile: the second commit drops the first's marks under review, or replaces text the request never saw | the commit goes ahead only if no suggestions are under review and the range still holds the original text | medium; not executed | TextTransformer.RaceDropsReviewedMarks | TextTransformer.ValidateAndApplyRechecked |
