/**
 * The diff-to-marks translator: from the word-diff parts of the old and the
 * new text to the text spliced into the editor and the suggestion marks over
 * it. Unchanged parts are copied with normalised line endings; added and
 * removed parts are cut into segments, each line break shown as one symbol
 * and each plain run copied as is, and every segment gets one mark.
 *
 * The functions below say what the translator produces; `TranslateDiff`
 * computes it with the source's loops.
 */
module Translator {
  import opened Wrappers
  import opened JsStrings
  import opened SuggestionMarks
  import opened Segmentation

  predicate IsChanged(p: DiffPart) {
    p.added || p.removed
  }

  /** `part.added ? "added" : "removed"`. */
  function MarkTypeOf(p: DiffPart): MarkType {
    if p.added then Added else Removed
  }

  // ---------------------------------------------------------------------
  // Specification of one changed part
  // ---------------------------------------------------------------------

  /** What a segment puts into the editor: the polarity's symbol for a line break, the text itself otherwise. */
  function SegmentText(seg: Segment, t: MarkType): string {
    if seg.isNewline then NewlineSymbol(t) else seg.raw
  }

  function SubstText(segs: seq<Segment>, t: MarkType): string {
    if segs == [] then [] else SegmentText(segs[0], t) + SubstText(segs[1..], t)
  }

  /** The mark for one segment whose substitute starts at document offset `from`. */
  function SegmentMark(seg: Segment, t: MarkType, from: nat, id: nat): SuggestionMark {
    SuggestionMark(id, from, from + |SegmentText(seg, t)|, t, seg.isNewline,
                   if seg.isNewline then Some("\n") else None)
  }

  /** One mark per segment, each starting where the previous substitute ended. */
  function SegmentMarks(segs: seq<Segment>, t: MarkType, from: nat, id: nat): seq<SuggestionMark> {
    if segs == [] then []
    else [SegmentMark(segs[0], t, from, id)] + SegmentMarks(segs[1..], t, from + |SegmentText(segs[0], t)|, id + 1)
  }

  /** What one diff part contributes to the inserted text. */
  function PartText(p: DiffPart): string {
    if IsChanged(p) then SubstText(Segments(p.value), MarkTypeOf(p))
    else NormalizeLineEndings(p.value)
  }

  /** The marks of one diff part whose text starts at document offset `from`. */
  function PartMarks(p: DiffPart, from: nat, id: nat): seq<SuggestionMark> {
    if IsChanged(p) then SegmentMarks(Segments(p.value), MarkTypeOf(p), from, id) else []
  }

  // ---------------------------------------------------------------------
  // Specification of the whole translation
  // ---------------------------------------------------------------------

  /** The text to insert: the parts' contributions, in order. */
  function InsertText(parts: seq<DiffPart>): string {
    if parts == [] then [] else PartText(parts[0]) + InsertText(parts[1..])
  }

  /**
   * The marks of `parts` whose text starts at document offset `from`: each
   * part's marks start where the text of the parts before it ends, and ids
   * continue from the marks before it.
   */
  function MarksFrom(parts: seq<DiffPart>, from: nat, id: nat): seq<SuggestionMark> {
    if parts == [] then []
    else
      var ms := PartMarks(parts[0], from, id);
      ms + MarksFrom(parts[1..], from + |PartText(parts[0])|, id + |ms|)
  }

  // ---------------------------------------------------------------------
  // What is left to do, named for the loop invariants and the commit
  // ---------------------------------------------------------------------

  /** The text of the parts from index `k` on. */
  function TextOfParts(parts: seq<DiffPart>, k: nat): string
    requires k <= |parts|
  {
    InsertText(parts[k..])
  }

  /** The marks of the parts from index `k` on, the first starting at `from` with id `id`. */
  function MarksOfParts(parts: seq<DiffPart>, k: nat, from: nat, id: nat): seq<SuggestionMark>
    requires k <= |parts|
  {
    MarksFrom(parts[k..], from, id)
  }

  /** The substitute text of the segments of `v[pos..]`. */
  function TextFrom(v: string, pos: nat, t: MarkType): string
    requires pos <= |v|
  {
    SubstText(SegmentsFrom(v, pos), t)
  }

  /** The marks of the segments of `v[pos..]`, the first starting at `from` with id `id`. */
  function MarksOfSegments(v: string, pos: nat, t: MarkType, from: nat, id: nat): seq<SuggestionMark>
    requires pos <= |v|
  {
    SegmentMarks(SegmentsFrom(v, pos), t, from, id)
  }

  // ---------------------------------------------------------------------
  // The translator loop
  // ---------------------------------------------------------------------

  /**
   * The loop over the diff parts. `base` is the start of the replaced range,
   * `firstId` the next id the id generator hands out; `nextId` is the one it
   * hands out after this call.
   */
  method TranslateDiff(parts: seq<DiffPart>, base: nat, firstId: nat)
    returns (insertText: string, marks: seq<SuggestionMark>, nextId: nat)
    ensures insertText == InsertText(parts)
    ensures marks == MarksFrom(parts, base, firstId)
    ensures nextId == firstId + |marks|
  {
    insertText := "";
    marks := [];
    nextId := firstId;
    var currentOffset: nat := 0;
    ghost var markFrom: nat := base;
    ghost var totalText := InsertText(parts);
    ghost var totalMarks := MarksFrom(parts, base, firstId);
    assert parts[0..] == parts;
    for k := 0 to |parts|
      invariant currentOffset == |insertText| && markFrom == base + currentOffset
      invariant nextId == firstId + |marks|
      invariant insertText + TextOfParts(parts, k) == totalText
      invariant marks + MarksOfParts(parts, k, markFrom, nextId) == totalMarks
    {
      var partFrom := base + currentOffset;
      var partText, partMarks, idAfter := TranslatePart(parts[k], partFrom, nextId);
      var newText := insertText + partText;
      var newMarks := marks + partMarks;
      var newOffset := currentOffset + |partText|;
      ghost var nextFrom: nat := base + newOffset;
      PartTextStep(parts, k, insertText, partText, newText, totalText);
      PartMarksStep(parts, k, partFrom, nextId, marks, partMarks, newMarks, nextFrom, idAfter, totalMarks);
      insertText := newText;
      marks := newMarks;
      nextId := idAfter;
      currentOffset := newOffset;
      markFrom := nextFrom;
    }
  }

  /**
   * The body of the loop over the diff parts: an added or removed part is
   * segmented, an unchanged one only has its line endings normalised.
   */
  method TranslatePart(part: DiffPart, markBase: nat, firstId: nat)
    returns (text: string, partMarks: seq<SuggestionMark>, nextId: nat)
    ensures text == PartText(part)
    ensures partMarks == PartMarks(part, markBase, firstId)
    ensures nextId == firstId + |partMarks|
  {
    if part.added || part.removed {
      text, partMarks, nextId := TranslateChangedPart(part, markBase, firstId);
    } else {
      text := NormalizeLineEndings(part.value);
      partMarks := [];
      nextId := firstId;
    }
  }

  /**
   * The `while` loop over one added or removed part: its segments, their
   * substitutes and their marks, the first mark starting at `markBase`.
   */
  method TranslateChangedPart(part: DiffPart, markBase: nat, firstId: nat)
    returns (text: string, partMarks: seq<SuggestionMark>, nextId: nat)
    requires IsChanged(part)
    ensures text == PartText(part)
    ensures partMarks == PartMarks(part, markBase, firstId)
    ensures nextId == firstId + |partMarks|
  {
    var value := part.value;
    var added := part.added;
    var t := if added then Added else Removed;
    ghost var totalText := TextFrom(value, 0, t);
    ghost var totalMarks := MarksOfSegments(value, 0, t, markBase, firstId);
    text := "";
    partMarks := [];
    nextId := firstId;
    var pos: nat := 0;
    var markStart := markBase;
    while pos < |value|
      invariant pos <= |value|
      invariant nextId == firstId + |partMarks|
      invariant markStart == markBase + |text|
      invariant text + TextFrom(value, pos, t) == totalText
      invariant partMarks + MarksOfSegments(value, pos, t, markStart, nextId) == totalMarks
      decreases |value| - pos
    {
      var segmentIsNewline, segmentEnd := NextSegment(value, pos);
      var piece;
      var mark;
      if segmentIsNewline {
        piece := if added then NewlineAddSymbol else NewlineRemoveSymbol;
        mark := SuggestionMark(nextId, markStart, markStart + |piece|, t, true, Some("\n"));
      } else {
        piece := value[pos..segmentEnd];
        mark := SuggestionMark(nextId, markStart, markStart + |piece|, t, false, None);
      }
      var newText := text + piece;
      var newMarks := partMarks + [mark];
      var newStart := markStart + |piece|;
      SegmentTextStep(value, pos, segmentEnd, t, text, piece, newText, totalText);
      SegmentMarkStep(value, pos, segmentEnd, t, partMarks, markStart, nextId, mark, newMarks, newStart, totalMarks);
      text := newText;
      partMarks := newMarks;
      nextId := nextId + 1;
      markStart := newStart;
      pos := segmentEnd;
    }
  }

  /**
   * The segment at `pos`, found as the translator finds it: the `startsWith`
   * tests for a line break, and otherwise the `indexOf` searches for the next
   * one. The segment is `value[pos..end]`.
   */
  method NextSegment(value: string, pos: nat) returns (isNewline: bool, end: nat)
    requires pos < |value|
    ensures pos < end <= |value|
    ensures SegmentAt(value, pos) == Segment(value[pos..end], isNewline)
  {
    var segmentLength := 0;
    isNewline := false;
    if OccursAt(value, "\n", pos) {
      segmentLength := 1;
      isNewline := true;
    } else if OccursAt(value, "\r\n", pos) {
      segmentLength := 2;
      isNewline := true;
    } else if OccursAt(value, "\r", pos) {
      segmentLength := 1;
      isNewline := true;
    }
    StartsWithChainFindsBreak(value, pos);
    if isNewline {
      end := pos + segmentLength;
    } else {
      var nextNewline := NextNewlineIndex(value, pos);
      EarliestBreakEndsRun(value, pos);
      end := if nextNewline.None? then |value| else nextNewline.value;
    }
  }

  /**
   * `nextNewlineIndex`: the least index at or after `pos` any of the three
   * `indexOf` searches finds; `None` stands for `Number.POSITIVE_INFINITY`.
   */
  method NextNewlineIndex(value: string, pos: nat) returns (nextNewline: Option<nat>)
    requires pos <= |value|
    ensures nextNewline == EarliestBreak(value, pos, LineBreaks)
  {
    nextNewline := None;
    for b := 0 to |LineBreaks|
      invariant nextNewline == EarliestBreak(value, pos, LineBreaks[..b])
    {
      assert LineBreaks[..b + 1][..b] == LineBreaks[..b];
      var idx := IndexOf(value, LineBreaks[b], pos);
      if idx != -1 {
        nextNewline := if nextNewline.Some? && nextNewline.value <= idx then nextNewline else Some(idx);
      }
    }
    assert LineBreaks[..|LineBreaks|] == LineBreaks;
  }

  // ---------------------------------------------------------------------
  // One step of each loop
  // ---------------------------------------------------------------------

  /** Appending the text of the part at `k` leaves the text of the parts after it to do. */
  lemma PartTextStep(parts: seq<DiffPart>, k: nat, insertText: string, partText: string, newText: string,
                     total: string)
    requires k < |parts|
    requires insertText + TextOfParts(parts, k) == total
    requires partText == PartText(parts[k]) && newText == insertText + partText
    ensures newText + TextOfParts(parts, k + 1) == total
  {
    var ps := parts[k..];
    assert ps[0] == parts[k] && ps[1..] == parts[k + 1..];
    Reassoc(insertText, partText, InsertText(parts[k + 1..]));
  }

  /** Appending the marks of the part at `k` leaves the marks of the parts after it to do. */
  lemma PartMarksStep(parts: seq<DiffPart>, k: nat, from: nat, id: nat, marks: seq<SuggestionMark>,
                      partMarks: seq<SuggestionMark>, newMarks: seq<SuggestionMark>, nextFrom: nat, nextId: nat,
                      total: seq<SuggestionMark>)
    requires k < |parts|
    requires marks + MarksOfParts(parts, k, from, id) == total
    requires partMarks == PartMarks(parts[k], from, id) && newMarks == marks + partMarks
    requires nextFrom == from + |PartText(parts[k])| && nextId == id + |partMarks|
    ensures newMarks + MarksOfParts(parts, k + 1, nextFrom, nextId) == total
  {
    var ps := parts[k..];
    assert ps[0] == parts[k] && ps[1..] == parts[k + 1..];
    Reassoc(marks, partMarks, MarksFrom(parts[k + 1..], nextFrom, nextId));
  }

  /** The segment at `pos` contributes `piece` to the text of a changed part ... */
  lemma SegmentTextStep(v: string, pos: nat, end: nat, t: MarkType, text: string, piece: string, newText: string,
                        total: string)
    requires pos < |v| && end == pos + |SegmentAt(v, pos).raw|
    requires text + TextFrom(v, pos, t) == total
    requires piece == SegmentText(SegmentAt(v, pos), t) && newText == text + piece
    ensures newText + TextFrom(v, end, t) == total
  {
    SegmentsFromUnfold(v, pos);
    SubstTextCons(SegmentAt(v, pos), SegmentsFrom(v, end), t);
    Reassoc(text, piece, TextFrom(v, end, t));
  }

  /** ... and `mark` to its marks. */
  lemma SegmentMarkStep(v: string, pos: nat, end: nat, t: MarkType, marks: seq<SuggestionMark>, from: nat, id: nat,
                        mark: SuggestionMark, newMarks: seq<SuggestionMark>, nextFrom: nat,
                        total: seq<SuggestionMark>)
    requires pos < |v| && end == pos + |SegmentAt(v, pos).raw|
    requires marks + MarksOfSegments(v, pos, t, from, id) == total
    requires mark == SegmentMark(SegmentAt(v, pos), t, from, id) && newMarks == marks + [mark]
    requires nextFrom == from + |SegmentText(SegmentAt(v, pos), t)|
    ensures newMarks + MarksOfSegments(v, end, t, nextFrom, id + 1) == total
  {
    SegmentsFromUnfold(v, pos);
    SegmentMarksCons(SegmentAt(v, pos), SegmentsFrom(v, end), t, from, id);
    Reassoc(marks, [mark], MarksOfSegments(v, end, t, nextFrom, id + 1));
  }

  lemma Reassoc<T>(a: seq<T>, b: seq<T>, c: seq<T>)
    ensures (a + b) + c == a + (b + c)
  {
  }

  lemma SubstTextCons(seg: Segment, rest: seq<Segment>, t: MarkType)
    ensures SubstText([seg] + rest, t) == SegmentText(seg, t) + SubstText(rest, t)
  {
    var segs := [seg] + rest;
    assert segs[0] == seg && segs[1..] == rest;
  }

  lemma SegmentMarksCons(seg: Segment, rest: seq<Segment>, t: MarkType, from: nat, id: nat)
    ensures SegmentMarks([seg] + rest, t, from, id)
            == [SegmentMark(seg, t, from, id)] + SegmentMarks(rest, t, from + |SegmentText(seg, t)|, id + 1)
  {
    var segs := [seg] + rest;
    assert segs[0] == seg && segs[1..] == rest;
  }
}
