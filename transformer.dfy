/**
 * The text transformer proper: the prompt it sends, the line window of the
 * dynamic context, and the guarded commit that turns the AI's answer into
 * reviewable suggestions in one atomic editor update.
 */
module TextTransformer {
  import opened Wrappers
  import opened JsStrings
  import opened SuggestionMarks
  import opened Translator
  import opened TranslatorProperties
  import opened SuggestionState
  import opened Editor

  // ---------------------------------------------------------------------------
  // Dynamic context window

  /**
   * The lines the selection spans, in editor line indices: for a selection
   * transformation with something selected, from the upper to the lower of
   * anchor and head; otherwise the cursor line alone.
   */
  function SelectionLines(selectionScope: bool, somethingSelected: bool, anchorLine: int, headLine: int,
                          cursorLine: int): (lines: (int, int))
    ensures lines.0 <= lines.1
    ensures selectionScope && somethingSelected ==>
              {lines.0, lines.1} == {anchorLine, headLine}
    ensures !(selectionScope && somethingSelected) ==> lines == (cursorLine, cursorLine)
  {
    if selectionScope && somethingSelected then
      (if anchorLine <= headLine then anchorLine else headLine,
       if anchorLine <= headLine then headLine else anchorLine)
    else (cursorLine, cursorLine)
  }

  /**
   * The lines of dynamic context: `around` lines on each side of the
   * selection's lines, cut to the document's lines `0 .. lastLine`.
   */
  function ContextWindow(startLine: int, endLine: int, around: int, lastLine: int): (w: (int, int))
    ensures 0 <= w.0 && w.1 <= lastLine
    ensures startLine - around <= w.0 && w.1 <= endLine + around
    ensures w.0 == 0 || w.0 == startLine - around
    ensures w.1 == lastLine || w.1 == endLine + around
    ensures 0 <= around && 0 <= startLine <= endLine <= lastLine ==> w.0 <= startLine && endLine <= w.1
  {
    (if startLine - around > 0 then startLine - around else 0,
     if lastLine < endLine + around then lastLine else endLine + around)
  }

  /**
   * The window as lines 86-98 compute it: around the selection's lines for a
   * selection transformation with something selected, around the cursor line
   * otherwise. The lines the window is built around are inside it.
   */
  function SelectionContextWindow(selectionScope: bool, somethingSelected: bool, anchorLine: int, headLine: int,
                                  cursorLine: int, around: int, lastLine: int): (w: (int, int))
    ensures 0 <= w.0 && w.1 <= lastLine
    ensures 0 <= around && selectionScope && somethingSelected
            && 0 <= anchorLine <= lastLine && 0 <= headLine <= lastLine ==>
              w.0 <= anchorLine <= w.1 && w.0 <= headLine <= w.1
    ensures 0 <= around && !(selectionScope && somethingSelected) && 0 <= cursorLine <= lastLine ==>
              w.0 <= cursorLine <= w.1
  {
    var lines := SelectionLines(selectionScope, somethingSelected, anchorLine, headLine, cursorLine);
    ContextWindow(lines.0, lines.1, around, lastLine)
  }

  /** A line is in the window exactly when it is a document line within `around` of the selection's lines. */
  lemma ContextWindowIsIntersection(startLine: int, endLine: int, around: int, lastLine: int, line: int)
    ensures var w := ContextWindow(startLine, endLine, around, lastLine);
      w.0 <= line <= w.1 <==> 0 <= line <= lastLine && startLine - around <= line <= endLine + around
  {
  }

  // ---------------------------------------------------------------------------
  // Prompt

  /** A prompt as configured in the settings. */
  datatype Prompt = Prompt(id: string, name: string, text: string, isDefault: bool, enabled: bool)

  const TranslatePromptId: string := "translate"
  const LanguagePlaceholder: string := "{language}"
  const DefaultLanguage: string := "target language"

  /** The configured translation language, trimmed; the generic wording when it is unset or blank. */
  function TargetLanguage(setting: Option<string>): (lang: string)
    ensures lang != []
    ensures setting.Some? && !IsBlank(setting.value) ==> lang == Trim(setting.value)
    ensures setting.None? || IsBlank(setting.value) ==> lang == DefaultLanguage
  {
    if setting.Some? && Trim(setting.value) != [] then Trim(setting.value) else DefaultLanguage
  }

  /**
   * The prompt actually sent: a copy of the configured one, in which, for the
   * translate prompt only, the first `{language}` is replaced by the target
   * language.
   */
  function PreparePrompt(p: Prompt, language: Option<string>): (r: Prompt)
    ensures r.id == p.id && r.name == p.name && r.isDefault == p.isDefault && r.enabled == p.enabled
    ensures p.id != TranslatePromptId ==> r == p
    ensures (forall j :: 0 <= j <= |p.text| ==> !OccursAt(p.text, LanguagePlaceholder, j)) ==> r == p
    ensures forall i :: p.id == TranslatePromptId && 0 <= i <= |p.text| && OccursAt(p.text, LanguagePlaceholder, i)
                        && (forall j :: 0 <= j < i ==> !OccursAt(p.text, LanguagePlaceholder, j))
              ==> r.text == p.text[..i]
                            + Substitution(TargetLanguage(language), LanguagePlaceholder,
                                           p.text[..i], p.text[i + |LanguagePlaceholder|..])
                            + p.text[i + |LanguagePlaceholder|..]
  {
    if p.id == TranslatePromptId then
      p.(text := ReplaceFirst(p.text, LanguagePlaceholder, TargetLanguage(language)))
    else p
  }

  /** A language without `$` (the generic wording among them) is inserted exactly as it reads. */
  lemma PreparePromptLiteral(p: Prompt, language: Option<string>, i: nat)
    requires p.id == TranslatePromptId && i <= |p.text| && OccursAt(p.text, LanguagePlaceholder, i)
    requires forall j :: 0 <= j < i ==> !OccursAt(p.text, LanguagePlaceholder, j)
    requires language.None? || NoDollar(Trim(language.value))
    ensures PreparePrompt(p, language).text
            == p.text[..i] + TargetLanguage(language) + p.text[i + |LanguagePlaceholder|..]
  {
    assert NoDollar(TargetLanguage(language));
  }

  /** A language written `$&` puts the placeholder itself back: the prompt is sent as it was configured. */
  lemma DollarLanguageKeepsPlaceholder(p: Prompt, i: nat)
    requires p.id == TranslatePromptId && i <= |p.text| && OccursAt(p.text, LanguagePlaceholder, i)
    requires forall j :: 0 <= j < i ==> !OccursAt(p.text, LanguagePlaceholder, j)
    ensures PreparePrompt(p, Some("$&")) == p
  {
    DollarAmpTrimmed();
    MatchLanguageKeepsPlaceholder(p, Some("$&"), i);
  }

  /** Any language that comes out as `$&` puts the placeholder back. */
  lemma MatchLanguageKeepsPlaceholder(p: Prompt, language: Option<string>, i: nat)
    requires p.id == TranslatePromptId && i <= |p.text| && OccursAt(p.text, LanguagePlaceholder, i)
    requires forall j :: 0 <= j < i ==> !OccursAt(p.text, LanguagePlaceholder, j)
    requires TargetLanguage(language) == "$&"
    ensures PreparePrompt(p, language) == p
  {
    var before, after := p.text[..i], p.text[i + |LanguagePlaceholder|..];
    SubstitutionPatterns(LanguagePlaceholder, before, after);
    SplitAtOccurrence(p.text, LanguagePlaceholder, i);
  }

  /** A text holding `pat` at `i` is the text before it, `pat`, and the text after it. */
  lemma SplitAtOccurrence(s: string, pat: string, i: nat)
    requires OccursAt(s, pat, i)
    ensures s == s[..i] + pat + s[i + |pat|..]
  {
    assert s == s[..i] + s[i..i + |pat|] + s[i + |pat|..];
  }

  lemma DollarAmpTrimmed()
    ensures TargetLanguage(Some("$&")) == "$&"
  {
    assert !IsWhitespace('$') && !IsWhitespace('&');
    assert TrimStart("$&") == "$&";
    assert TrimEnd("$&") == "$&";
  }

  // ---------------------------------------------------------------------------
  // Guarded commit
  //
  // The inserted text and the marks are stated as `TextOfParts(parts, 0)`
  // and `MarksOfParts(parts, 0, ...)`, which are `InsertText(parts)` and
  // `MarksFrom(parts, ...)` themselves.

  /** What the AI request gave back: it failed, or it answered, with or without new text. */
  datatype AiReply = RequestFailed | Reply(newText: Option<string>, isOverlength: bool)

  /**
   * Why a transformation was abandoned. `TextChanged` is raised only by the
   * rechecking variant of the commit, `ValidateAndApplyRechecked`.
   */
  datatype Abort = EmptyInput | ActiveSuggestions | RequestError | NoText | FileChanged | NoChanges | TextChanged

  /**
   * How a transformation ended. `Threw`: the editor refused the change,
   * because the range reaches past the end of the document, and raised an
   * error after the diff was translated but before the document or the store
   * changed.
   */
  datatype Outcome = Aborted(reason: Abort) | Applied(count: nat) | Threw

  /** `!newText`: the reply carries no text, or the empty text. */
  predicate HasNewText(reply: AiReply) {
    reply.Reply? && reply.newText.Some? && reply.newText.value != []
  }

  /** `diff.some(part => part.added || part.removed)`. */
  predicate AnyChanged(parts: seq<DiffPart>) {
    exists k :: 0 <= k < |parts| && IsChanged(parts[k])
  }

  /** The word diff of the original and the new text, both with normalised line endings. */
  function DiffOf(diff: (string, string) -> seq<DiffPart>, originalText: string, newText: string): seq<DiffPart> {
    diff(NormalizeLineEndings(originalText), NormalizeLineEndings(newText))
  }

  /**
   * The checks, in the order they are made, before anything is changed: the
   * first that fails names the abort. No check fails exactly when the input
   * is not blank, no suggestions are under review, the AI answered with
   * non-empty text, the active file is the one the request started from, and
   * the diff holds an added or removed part.
   */
  function Guard(originalText: string, hadActive: bool, reply: AiReply, fileBefore: Option<string>,
                 fileAfter: Option<string>, diff: (string, string) -> seq<DiffPart>): (r: Option<Abort>)
    ensures r == None <==>
              !IsBlank(originalText) && !hadActive && HasNewText(reply) && fileBefore == fileAfter
              && AnyChanged(DiffOf(diff, originalText, reply.newText.value))
    ensures r == Some(EmptyInput) <==> IsBlank(originalText)
    ensures r == Some(ActiveSuggestions) <==> !IsBlank(originalText) && hadActive
    ensures r == Some(RequestError) <==> !IsBlank(originalText) && !hadActive && reply.RequestFailed?
    ensures r == Some(NoText) <==> !IsBlank(originalText) && !hadActive && reply.Reply? && !HasNewText(reply)
    ensures r == Some(FileChanged) <==> !IsBlank(originalText) && !hadActive && HasNewText(reply) && fileBefore != fileAfter
    ensures r == Some(NoChanges) <==>
              !IsBlank(originalText) && !hadActive && HasNewText(reply) && fileBefore == fileAfter
              && !AnyChanged(DiffOf(diff, originalText, reply.newText.value))
  {
    if IsBlank(originalText) then Some(EmptyInput)
    else if hadActive then Some(ActiveSuggestions)
    else if reply.RequestFailed? then Some(RequestError)
    else if !HasNewText(reply) then Some(NoText)
    else if fileBefore != fileAfter then Some(FileChanged)
    else if !AnyChanged(DiffOf(diff, originalText, reply.newText.value)) then Some(NoChanges)
    else None
  }

  /**
   * Validate the AI's answer for the text `originalText` that stood at
   * `range`, and apply it, as the source does across its one `await`:
   * `hadActive` is what the store held when the transformation began, before
   * the request; `doc` and `store` are the document and the store as they
   * are when the answer arrives, which the user may have changed meanwhile.
   * If a check fails, nothing is touched. Otherwise the diff is translated,
   * which hands out one id per mark. If the range now reaches past the end of
   * the document, the editor then throws, and the document and the store are
   * left as they were. Otherwise, in one step, the range is replaced by the translated diff, the
   * store is cleared (whatever it now holds) and then given the new marks
   * over the range the inserted text occupies, and the cursor is put at the
   * end of that text. The diff that was translated is handed back beside the
   * outcome.
   */
  method ValidateAndApply(doc: Document, store: SuggestionStore, ids: IdCounter,
                          originalText: string, range: Range, hadActive: bool, reply: AiReply,
                          fileBefore: Option<string>, fileAfter: Option<string>,
                          diff: (string, string) -> seq<DiffPart>)
    returns (outcome: Outcome, parts: seq<DiffPart>)
    requires doc.Valid() && store.Valid()
    requires range.from <= range.to
    modifies doc, store, ids
    ensures doc.Valid() && store.Valid()
    ensures var g := Guard(originalText, hadActive, reply, fileBefore, fileAfter, diff);
      && (outcome.Aborted? <==> g.Some?) && (g.Some? ==> outcome.reason == g.value)
      && (outcome.Threw? <==> g.None? && |old(doc.text)| < range.to)
    ensures !outcome.Applied? ==>
              doc.text == old(doc.text) && doc.cursor == old(doc.cursor)
              && store.marks == old(store.marks) && store.scope == old(store.scope)
    ensures outcome.Aborted? ==> ids.next == old(ids.next)
    ensures outcome.Threw? ==>
              && HasNewText(reply)
              && parts == DiffOf(diff, originalText, reply.newText.value)
              && ids.next == old(ids.next) + |MarksOfParts(parts, 0, range.from, old(ids.next))|
    ensures outcome.Applied? ==>
              && HasNewText(reply)
              && parts == DiffOf(diff, originalText, reply.newText.value)
              && range.to <= |old(doc.text)|
              && var insert := TextOfParts(parts, 0);
              && doc.text == Splice(old(doc.text), range.from, range.to, insert)
              && doc.cursor == range.from + |insert|
              && store.marks == MarksOfParts(parts, 0, range.from, old(ids.next))
              && store.scope == Some(Range(range.from, range.from + |insert|))
              && ids.next == old(ids.next) + |store.marks|
              && outcome.count == |store.marks|
  {
    var verdict;
    verdict, parts := Validate(originalText, hadActive, reply, fileBefore, fileAfter, diff);
    if verdict.Some? {
      return Aborted(verdict.value), parts;
    }
    outcome := CommitOrThrow(doc, store, ids, range, parts);
  }

  /**
   * The commit as the source makes it, with the range not checked beforehand:
   * the diff is translated, handing out one id per mark, and the dispatch
   * then either throws, because the range reaches past the end of the
   * document, leaving the document and the store as they were, or commits.
   */
  method CommitOrThrow(doc: Document, store: SuggestionStore, ids: IdCounter, range: Range, parts: seq<DiffPart>)
    returns (outcome: Outcome)
    requires doc.Valid() && store.Valid()
    requires range.from <= range.to
    modifies doc, store, ids
    ensures doc.Valid() && store.Valid()
    ensures !outcome.Aborted?
    ensures outcome.Threw? <==> |old(doc.text)| < range.to
    ensures ids.next == old(ids.next) + |MarksOfParts(parts, 0, range.from, old(ids.next))|
    ensures outcome.Threw? ==>
              doc.text == old(doc.text) && doc.cursor == old(doc.cursor)
              && store.marks == old(store.marks) && store.scope == old(store.scope)
    ensures outcome.Applied? ==>
              && var insert := TextOfParts(parts, 0);
              && doc.text == Splice(old(doc.text), range.from, range.to, insert)
              && doc.cursor == range.from + |insert|
              && store.marks == MarksOfParts(parts, 0, range.from, old(ids.next))
              && store.scope == Some(Range(range.from, range.from + |insert|))
              && outcome.count == |store.marks|
  {
    var insertText, marks := Translate(ids, range.from, parts);
    if |doc.text| < range.to {
      return Threw;
    }
    Dispatch(doc, store, range, insertText, marks);
    outcome := Applied(|marks|);
  }

  /**
   * `ValidateAndApply` with the two facts it relies on checked again once
   * the answer has arrived: the store holds no marks under review, and the
   * range still holds the text that was sent. A commit then never discards
   * suggestions under review and never overwrites text the request did not
   * see.
   */
  method ValidateAndApplyRechecked(doc: Document, store: SuggestionStore, ids: IdCounter,
                                   originalText: string, range: Range, hadActive: bool, reply: AiReply,
                                   fileBefore: Option<string>, fileAfter: Option<string>,
                                   diff: (string, string) -> seq<DiffPart>)
    returns (outcome: Outcome, parts: seq<DiffPart>)
    requires doc.Valid() && store.Valid()
    requires range.from <= range.to
    modifies doc, store, ids
    ensures doc.Valid() && store.Valid()
    ensures !outcome.Threw?
    ensures outcome.Applied? <==>
              && Guard(originalText, hadActive, reply, fileBefore, fileAfter, diff).None?
              && old(store.marks) == []
              && range.to <= |old(doc.text)| && old(doc.text)[range.from..range.to] == originalText
    ensures !outcome.Applied? ==>
              doc.text == old(doc.text) && doc.cursor == old(doc.cursor)
              && store.marks == old(store.marks) && store.scope == old(store.scope) && ids.next == old(ids.next)
    ensures outcome.Applied? ==>
              && HasNewText(reply)
              && parts == DiffOf(diff, originalText, reply.newText.value)
              && var insert := TextOfParts(parts, 0);
              && doc.text == Splice(old(doc.text), range.from, range.to, insert)
              && doc.cursor == range.from + |insert|
              && store.marks == MarksOfParts(parts, 0, range.from, old(ids.next))
              && store.scope == Some(Range(range.from, range.from + |insert|))
              && ids.next == old(ids.next) + |store.marks|
              && outcome.count == |store.marks|
  {
    var verdict;
    verdict, parts := Validate(originalText, hadActive, reply, fileBefore, fileAfter, diff);
    if verdict.Some? {
      return Aborted(verdict.value), parts;
    }
    if store.HasActive() {
      return Aborted(ActiveSuggestions), parts;
    }
    if |doc.text| < range.to || doc.text[range.from..range.to] != originalText {
      return Aborted(TextChanged), parts;
    }
    var count := Commit(doc, store, ids, range, parts);
    outcome := Applied(count);
  }

  /**
   * The race `ValidateAndApply` leaves open, on concrete values. A
   * transformation of "a" at `[0, 1)` starts with no suggestions active.
   * While its request is pending, a second run commits a mark there, and the
   * user types "z" over "a". The answer then commits anyway: the mark under
   * review is dropped, and the text replaced is "z", which the request never
   * saw.
   */
  method RaceDropsReviewedMarks() returns (outcome: Outcome, reviewed: seq<SuggestionMark>,
                                            after: seq<SuggestionMark>, replaced: string)
    ensures outcome.Applied?
    ensures reviewed != [] && forall m :: m in reviewed ==> m !in after
    ensures replaced != "a"
  {
    var doc := new Document("z", 0);
    var store := new SuggestionStore();
    var reviewedMark := SuggestionMark(7, 0, 1, Added, false, None);
    store.Set([reviewedMark], Range(0, 1));
    var ids := new IdCounter(100);
    reviewed := store.marks;
    replaced := doc.text[0..1];
    RaceGuardPasses();
    var parts;
    outcome, parts := ValidateAndApply(doc, store, ids, "a", Range(0, 1), false, Reply(Some("b"), false),
                                       Some("note.md"), Some("note.md"), AllAdded);
    after := store.marks;
    FreshIdsMiss(parts, 0, 100, reviewedMark);
  }

  /** A diff provider that reports the whole new text as added. */
  function AllAdded(originalText: string, newText: string): (parts: seq<DiffPart>)
    ensures AnyChanged(parts)
  {
    var parts := [DiffPart(newText, true, false)];
    assert IsChanged(parts[0]);
    parts
  }

  /** Transforming "a" into "b" in an unchanged file, with nothing active at the start, passes every check. */
  lemma RaceGuardPasses()
    ensures Guard("a", false, Reply(Some("b"), false), Some("note.md"), Some("note.md"), AllAdded) == None
  {
    assert !IsWhitespace('a');
    assert TrimStart("a") == "a";
  }

  /** Marks numbered from `id` miss a mark numbered below `id`. */
  lemma FreshIdsMiss(parts: seq<DiffPart>, from: nat, id: nat, m: SuggestionMark)
    requires m.id < id
    ensures m !in MarksOfParts(parts, 0, from, id)
  {
    TranslationIds(parts, from, id);
    assert parts[0..] == parts;
  }

  /**
   * The checks, made one after the other, each ending the transformation
   * when it fails; when all pass, the diff to translate.
   */
  method Validate(originalText: string, hadActive: bool, reply: AiReply, fileBefore: Option<string>,
                  fileAfter: Option<string>, diff: (string, string) -> seq<DiffPart>)
    returns (verdict: Option<Abort>, parts: seq<DiffPart>)
    ensures verdict == Guard(originalText, hadActive, reply, fileBefore, fileAfter, diff)
    ensures verdict == None ==> HasNewText(reply) && parts == DiffOf(diff, originalText, reply.newText.value)
  {
    parts := [];
    if IsBlank(originalText) {
      return Some(EmptyInput), parts;
    }
    if hadActive {
      return Some(ActiveSuggestions), parts;
    }
    if reply.RequestFailed? {
      return Some(RequestError), parts;
    }
    if !HasNewText(reply) {
      return Some(NoText), parts;
    }
    if fileBefore != fileAfter {
      return Some(FileChanged), parts;
    }
    var normalizedOriginal := NormalizeLineEndings(originalText);
    var normalizedNew := NormalizeLineEndings(reply.newText.value);
    parts := diff(normalizedOriginal, normalizedNew);
    if !AnyChanged(parts) {
      return Some(NoChanges), parts;
    }
    verdict := None;
  }

  /**
   * The part loop of a commit (lines 182-249): the diff is translated into the
   * text to insert and the marks over it, and one id is handed out per mark.
   * Nothing else changes yet.
   */
  method Translate(ids: IdCounter, from: nat, parts: seq<DiffPart>)
    returns (insertText: string, marks: seq<SuggestionMark>)
    modifies ids
    ensures insertText == TextOfParts(parts, 0)
    ensures marks == MarksOfParts(parts, 0, from, old(ids.next))
    ensures ids.next == old(ids.next) + |marks|
    ensures WellPlaced(marks, Range(from, from + |insertText|))
  {
    var firstId := ids.next;
    var nextId;
    insertText, marks, nextId := TranslateDiff(parts, from, firstId);
    var taken := ids.Take(nextId - firstId);
    TranslationWellPlaced(parts, from, firstId);
    assert parts[0..] == parts;
  }

  /**
   * The one dispatched update of a commit: the range is replaced by the
   * inserted text, the store is cleared and then given the marks over the
   * range that text now occupies, and the cursor is put at the end of it.
   */
  method Dispatch(doc: Document, store: SuggestionStore, range: Range,
                  insertText: string, marks: seq<SuggestionMark>)
    requires range.from <= range.to <= |doc.text|
    requires WellPlaced(marks, Range(range.from, range.from + |insertText|))
    modifies doc, store
    ensures doc.Valid() && store.Valid()
    ensures doc.text == Splice(old(doc.text), range.from, range.to, insertText)
    ensures doc.cursor == range.from + |insertText|
    ensures store.marks == marks
    ensures store.scope == Some(Range(range.from, range.from + |insertText|))
  {
    doc.Replace(range.from, range.to, insertText);
    store.Clear();
    store.Set(marks, Range(range.from, range.from + |insertText|));
  }

  /**
   * A whole commit over a range that lies in the document: translate, then
   * dispatch.
   */
  method Commit(doc: Document, store: SuggestionStore, ids: IdCounter, range: Range, parts: seq<DiffPart>)
    returns (count: nat)
    requires range.from <= range.to <= |doc.text|
    modifies doc, store, ids
    ensures doc.Valid() && store.Valid()
    ensures doc.text == Splice(old(doc.text), range.from, range.to, TextOfParts(parts, 0))
    ensures doc.cursor == range.from + |TextOfParts(parts, 0)|
    ensures store.marks == MarksOfParts(parts, 0, range.from, old(ids.next))
    ensures store.scope == Some(Range(range.from, range.from + |TextOfParts(parts, 0)|))
    ensures ids.next == old(ids.next) + count && count == |store.marks|
  {
    var insertText, marks := Translate(ids, range.from, parts);
    Dispatch(doc, store, range, insertText, marks);
    count := |marks|;
  }

  /**
   * After a commit the new scope holds exactly the inserted text, the text
   * before and after the replaced range is as it was, and every mark lies
   * inside the scope.
   */
  lemma CommitPlacement(text: string, range: Range, parts: seq<DiffPart>, firstId: nat)
    requires range.from <= range.to <= |text|
    ensures var insert := InsertText(parts);
      var after := Splice(text, range.from, range.to, insert);
      && after[range.from..range.from + |insert|] == insert
      && after[..range.from] == text[..range.from]
      && after[range.from + |insert|..] == text[range.to..]
      && WellPlaced(MarksFrom(parts, range.from, firstId), Range(range.from, range.from + |insert|))
  {
    TranslationWellPlaced(parts, range.from, firstId);
    assert parts[0..] == parts;
  }
}
