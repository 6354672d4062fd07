/**
 * What the translator's output satisfies: its marks are non-empty, in order
 * and never overlap; each lies inside the inserted text, spans exactly the
 * piece its segment contributed (one symbol of its own polarity for a line
 * break, a run without line breaks otherwise) and carries the next id; the
 * marks of one changed part tile that part's text; unchanged parts add
 * their normalised value and no mark.
 */
module TranslatorProperties {
  import opened Wrappers
  import opened JsStrings
  import opened SuggestionMarks
  import opened Segmentation
  import opened Translator

  // ---------------------------------------------------------------------
  // Marks laid over a text
  // ---------------------------------------------------------------------

  /** The piece of `text`, which starts at document offset `base`, that `m` spans. */
  function Spanned(m: SuggestionMark, text: string, base: nat): string
    requires base <= m.from <= m.to <= base + |text|
  {
    text[m.from - base..m.to - base]
  }

  /**
   * `m` lies inside `text` (which starts at document offset `base`) and is not
   * empty; a line-break mark spans exactly the symbol of its own type and
   * carries `"\n"`, a plain mark spans text without `\n` or `\r` and carries
   * no newline character.
   */
  predicate Covers(m: SuggestionMark, text: string, base: nat) {
    base <= m.from < m.to <= base + |text| &&
    (m.isNewlineChange ==> Spanned(m, text, base) == NewlineSymbol(m.markType) && m.newlineChar == Some("\n")) &&
    (!m.isNewlineChange ==> NoBreakChar(Spanned(m, text, base)) && m.newlineChar == None)
  }

  /** Marks in order, never overlapping, each covering its piece of `text`. */
  predicate Placed(ms: seq<SuggestionMark>, text: string, base: nat) {
    Ordered(ms) && forall i :: 0 <= i < |ms| ==> Covers(ms[i], text, base)
  }

  /** Consecutive marks that leave no gap: they cover `[from, to)` exactly. */
  predicate Tiles(ms: seq<SuggestionMark>, from: nat, to: nat) {
    if ms == [] then from == to
    else
      ms[0].from == from && ms[|ms| - 1].to == to &&
      forall i :: 0 <= i < |ms| - 1 ==> ms[i].to == ms[i + 1].from
  }

  /** Placed marks are what a suggestion store accepts for the scope of the text. */
  lemma PlacedIsWellPlaced(ms: seq<SuggestionMark>, text: string, base: nat)
    requires Placed(ms, text, base)
    ensures WellPlaced(ms, Range(base, base + |text|))
  {
    assert forall i :: 0 <= i < |ms| ==> Covers(ms[i], text, base);
  }

  lemma SliceOfLeft(a: string, b: string, lo: nat, hi: nat)
    requires lo <= hi <= |a|
    ensures (a + b)[lo..hi] == a[lo..hi]
  {
  }

  lemma SliceOfRight(a: string, b: string, lo: nat, hi: nat)
    requires |a| <= lo <= hi <= |a| + |b|
    ensures (a + b)[lo..hi] == b[lo - |a|..hi - |a|]
  {
  }

  /** A mark covering its piece of `a` covers the same piece of `a + b`. */
  lemma CoversLeft(m: SuggestionMark, a: string, b: string, base: nat)
    requires Covers(m, a, base)
    ensures Covers(m, a + b, base)
  {
    SliceOfLeft(a, b, m.from - base, m.to - base);
  }

  /** A mark covering its piece of `b`, placed after `a`, covers the same piece of `a + b`. */
  lemma CoversRight(m: SuggestionMark, a: string, b: string, base: nat)
    requires Covers(m, b, base + |a|)
    ensures Covers(m, a + b, base)
  {
    SliceOfRight(a, b, m.from - base, m.to - base);
  }

  /** The marks of two adjacent texts, side by side, are placed over the joined text. */
  lemma PlacedAppend(ms1: seq<SuggestionMark>, t1: string, ms2: seq<SuggestionMark>, t2: string, base: nat)
    requires Placed(ms1, t1, base) && Placed(ms2, t2, base + |t1|)
    ensures Placed(ms1 + ms2, t1 + t2, base)
  {
    var ms := ms1 + ms2;
    forall i | 0 <= i < |ms|
      ensures Covers(ms[i], t1 + t2, base)
    {
      if i < |ms1| {
        assert ms[i] == ms1[i];
        CoversLeft(ms1[i], t1, t2, base);
      } else {
        assert ms[i] == ms2[i - |ms1|];
        CoversRight(ms2[i - |ms1|], t1, t2, base);
      }
    }
    forall i, j | 0 <= i < j < |ms|
      ensures ms[i].to <= ms[j].from
    {
      if j < |ms1| {
        assert ms[i] == ms1[i] && ms[j] == ms1[j];
      } else if |ms1| <= i {
        assert ms[i] == ms2[i - |ms1|] && ms[j] == ms2[j - |ms1|];
      } else {
        assert ms[i] == ms1[i] && ms[j] == ms2[j - |ms1|];
        assert Covers(ms1[i], t1, base) && Covers(ms2[j - |ms1|], t2, base + |t1|);
      }
    }
  }

  /** Ids that continue from one list into the next. */
  lemma IdsAppend(ms1: seq<SuggestionMark>, ms2: seq<SuggestionMark>, id: nat)
    requires IdsFrom(ms1, id) && IdsFrom(ms2, id + |ms1|)
    ensures IdsFrom(ms1 + ms2, id)
  {
    var ms := ms1 + ms2;
    forall i | 0 <= i < |ms|
      ensures ms[i].id == id + i
    {
      if i < |ms1| {
        assert ms[i] == ms1[i];
      } else {
        assert ms[i] == ms2[i - |ms1|];
      }
    }
  }

  /** Two gap-free runs of marks, the second starting where the first ends, form one. */
  lemma TilesAppend(ms1: seq<SuggestionMark>, ms2: seq<SuggestionMark>, from: nat, mid: nat, to: nat)
    requires Tiles(ms1, from, mid) && Tiles(ms2, mid, to)
    ensures Tiles(ms1 + ms2, from, to)
  {
    var ms := ms1 + ms2;
    if ms1 != [] && ms2 != [] {
      assert ms[0] == ms1[0] && ms[|ms| - 1] == ms2[|ms2| - 1];
      forall i | 0 <= i < |ms| - 1
        ensures ms[i].to == ms[i + 1].from
      {
        if i + 1 < |ms1| {
          assert ms[i] == ms1[i] && ms[i + 1] == ms1[i + 1];
        } else if i + 1 == |ms1| {
          assert ms[i] == ms1[|ms1| - 1] && ms[i + 1] == ms2[0];
        } else {
          assert ms[i] == ms2[i - |ms1|] && ms[i + 1] == ms2[i + 1 - |ms1|];
        }
      }
    } else if ms1 == [] {
      assert ms == ms2;
    } else {
      assert ms == ms1;
    }
  }

  // ---------------------------------------------------------------------
  // One changed part: its segments and their marks
  // ---------------------------------------------------------------------

  /** One mark per segment. */
  lemma {:induction false} SegmentMarksLength(segs: seq<Segment>, t: MarkType, from: nat, id: nat)
    ensures |SegmentMarks(segs, t, from, id)| == |segs|
  {
    if segs != [] {
      SegmentMarksLength(segs[1..], t, from + |SegmentText(segs[0], t)|, id + 1);
    }
  }

  lemma {:induction false} SubstTextAppend(a: seq<Segment>, b: seq<Segment>, t: MarkType)
    ensures SubstText(a + b, t) == SubstText(a, t) + SubstText(b, t)
  {
    if a == [] {
      assert a + b == b;
    } else {
      assert (a + b)[0] == a[0] && (a + b)[1..] == a[1..] + b;
      SubstTextAppend(a[1..], b, t);
      Reassoc(SegmentText(a[0], t), SubstText(a[1..], t), SubstText(b, t));
    }
  }

  /**
   * The `i`-th mark belongs to the `i`-th segment: it starts where the
   * substitutes of the segments before it end and carries the `i`-th id.
   */
  lemma {:induction false} SegmentMarkAt(segs: seq<Segment>, t: MarkType, from: nat, id: nat, i: nat)
    requires i < |segs|
    ensures |SegmentMarks(segs, t, from, id)| == |segs|
    ensures SegmentMarks(segs, t, from, id)[i] == SegmentMark(segs[i], t, from + |SubstText(segs[..i], t)|, id + i)
  {
    SegmentMarksLength(segs, t, from, id);
    if i == 0 {
      assert segs[..0] == [];
    } else {
      var head := SegmentText(segs[0], t);
      var next := from + |head|;
      var tail := segs[1..];
      SegmentMarkAt(tail, t, next, id + 1, i - 1);
      assert segs[..i] == [segs[0]] + tail[..i - 1];
      SubstTextCons(segs[0], tail[..i - 1], t);
      assert next + |SubstText(tail[..i - 1], t)| == from + |SubstText(segs[..i], t)|;
      assert tail[i - 1] == segs[i];
    }
  }

  /** The substitute text around the `i`-th segment. */
  lemma SubstTextAround(segs: seq<Segment>, t: MarkType, i: nat)
    requires i < |segs|
    ensures SubstText(segs, t) == SubstText(segs[..i], t) + (SegmentText(segs[i], t) + SubstText(segs[i + 1..], t))
  {
    assert segs == segs[..i] + ([segs[i]] + segs[i + 1..]);
    SubstTextAppend(segs[..i], [segs[i]] + segs[i + 1..], t);
    SubstTextCons(segs[i], segs[i + 1..], t);
  }

  lemma SliceOfMiddle(a: string, b: string, c: string)
    ensures (a + (b + c))[|a|..|a| + |b|] == b
  {
  }

  /**
   * The `i`-th mark spans, in the substitute text, exactly the `i`-th
   * segment's substitute, has that segment's kind, the part's type and the
   * `i`-th id.
   */
  lemma SegmentMarkSpans(segs: seq<Segment>, t: MarkType, from: nat, id: nat, i: nat)
    requires i < |segs|
    ensures |SegmentMarks(segs, t, from, id)| == |segs|
    ensures var m := SegmentMarks(segs, t, from, id)[i];
      && from <= m.from <= m.to <= from + |SubstText(segs, t)|
      && Spanned(m, SubstText(segs, t), from) == SegmentText(segs[i], t)
      && m.isNewlineChange == segs[i].isNewline
      && m.markType == t
      && m.id == id + i
  {
    SegmentMarkAt(segs, t, from, id, i);
    SubstTextAround(segs, t, i);
    SliceOfMiddle(SubstText(segs[..i], t), SegmentText(segs[i], t), SubstText(segs[i + 1..], t));
  }

  /** The marks of well-formed segments are placed over their substitutes. */
  lemma {:induction false} SegmentMarksPlaced(segs: seq<Segment>, t: MarkType, from: nat, id: nat)
    requires WellSegmented(segs)
    ensures Placed(SegmentMarks(segs, t, from, id), SubstText(segs, t), from)
  {
    if segs != [] {
      var seg := segs[0];
      var text := SegmentText(seg, t);
      var next := from + |text|;
      var m := SegmentMark(seg, t, from, id);
      assert SegmentShapeOk(seg);
      assert text[0..|text|] == text;
      assert Covers(m, text, from);
      SegmentMarksPlaced(segs[1..], t, next, id + 1);
      PlacedAppend([m], text, SegmentMarks(segs[1..], t, next, id + 1), SubstText(segs[1..], t), from);
    }
  }

  lemma {:induction false} SegmentMarksIds(segs: seq<Segment>, t: MarkType, from: nat, id: nat)
    ensures IdsFrom(SegmentMarks(segs, t, from, id), id)
  {
    if segs != [] {
      var next := from + |SegmentText(segs[0], t)|;
      SegmentMarksIds(segs[1..], t, next, id + 1);
      IdsAppend([SegmentMark(segs[0], t, from, id)], SegmentMarks(segs[1..], t, next, id + 1), id);
    }
  }

  /** The marks of segments with non-empty substitutes tile the substitute text. */
  lemma {:induction false} SegmentMarksTile(segs: seq<Segment>, t: MarkType, from: nat, id: nat)
    ensures Tiles(SegmentMarks(segs, t, from, id), from, from + |SubstText(segs, t)|)
  {
    if segs != [] {
      var next := from + |SegmentText(segs[0], t)|;
      SegmentMarksTile(segs[1..], t, next, id + 1);
      TilesAppend([SegmentMark(segs[0], t, from, id)], SegmentMarks(segs[1..], t, next, id + 1),
                  from, next, from + |SubstText(segs, t)|);
    }
  }

  // ---------------------------------------------------------------------
  // One diff part
  // ---------------------------------------------------------------------

  /** A part yields marks exactly when it is added or removed and its value is not empty. */
  lemma PartMarksEmptyIff(p: DiffPart, from: nat, id: nat)
    ensures PartMarks(p, from, id) == [] <==> !IsChanged(p) || p.value == []
  {
    SegmentsEmptyIff(p.value);
    SegmentMarksLength(Segments(p.value), MarkTypeOf(p), from, id);
  }

  /** An unchanged part contributes its value with normalised line endings. */
  lemma UnchangedPartText(p: DiffPart)
    requires !IsChanged(p)
    ensures PartText(p) == NormalizeLineEndings(p.value) && HasNoCr(PartText(p))
  {
  }

  /** The marks of one part are placed over that part's text. */
  lemma PartMarksPlaced(p: DiffPart, from: nat, id: nat)
    ensures Placed(PartMarks(p, from, id), PartText(p), from)
  {
    if IsChanged(p) {
      SegmentsWellSegmented(p.value, 0);
      SegmentMarksPlaced(Segments(p.value), MarkTypeOf(p), from, id);
    }
  }

  /** The marks of one part carry consecutive ids from `id`. */
  lemma PartMarksIds(p: DiffPart, from: nat, id: nat)
    ensures IdsFrom(PartMarks(p, from, id), id)
  {
    if IsChanged(p) {
      SegmentMarksIds(Segments(p.value), MarkTypeOf(p), from, id);
    }
  }

  /** The marks of a changed part leave no gap in that part's text. */
  lemma PartMarksTile(p: DiffPart, from: nat, id: nat)
    requires IsChanged(p)
    ensures Tiles(PartMarks(p, from, id), from, from + |PartText(p)|)
  {
    SegmentMarksTile(Segments(p.value), MarkTypeOf(p), from, id);
  }

  /** Every mark of a part has the part's type: added exactly when the part is added. */
  lemma PartMarksPolarity(p: DiffPart, from: nat, id: nat, i: nat)
    requires i < |PartMarks(p, from, id)|
    ensures PartMarks(p, from, id)[i].markType == Added <==> p.added
  {
    var segs := Segments(p.value);
    SegmentMarksLength(segs, MarkTypeOf(p), from, id);
    SegmentMarkSpans(segs, MarkTypeOf(p), from, id, i);
  }

  /**
   * The marks of a changed part correspond one to one to the segments of its
   * value: the `i`-th spans the `i`-th segment's substitute (the symbol of the
   * part's polarity for a line break, the run itself for plain text) and is
   * a line-break mark exactly when that segment is a line break.
   */
  lemma ChangedPartMarkIsSegment(p: DiffPart, from: nat, id: nat, i: nat)
    requires IsChanged(p) && i < |Segments(p.value)|
    ensures |PartMarks(p, from, id)| == |Segments(p.value)|
    ensures var m := PartMarks(p, from, id)[i];
      var seg := Segments(p.value)[i];
      && from <= m.from <= m.to <= from + |PartText(p)|
      && Spanned(m, PartText(p), from) == (if seg.isNewline then NewlineSymbol(MarkTypeOf(p)) else seg.raw)
      && m.isNewlineChange == seg.isNewline
  {
    SegmentMarkSpans(Segments(p.value), MarkTypeOf(p), from, id, i);
  }

  // ---------------------------------------------------------------------
  // The whole diff
  // ---------------------------------------------------------------------

  /** The marks of the parts from `k` on: this part's, then the rest's. */
  lemma MarksOfPartsStep(parts: seq<DiffPart>, k: nat, from: nat, id: nat)
    requires k < |parts|
    ensures MarksOfParts(parts, k, from, id)
            == PartMarks(parts[k], from, id)
               + MarksOfParts(parts, k + 1, from + |PartText(parts[k])|, id + |PartMarks(parts[k], from, id)|)
  {
    var ps := parts[k..];
    assert ps[0] == parts[k] && ps[1..] == parts[k + 1..];
  }

  /** The text of the parts from `k` on: this part's, then the rest's. */
  lemma TextOfPartsStep(parts: seq<DiffPart>, k: nat)
    requires k < |parts|
    ensures TextOfParts(parts, k) == PartText(parts[k]) + TextOfParts(parts, k + 1)
  {
    var ps := parts[k..];
    assert ps[0] == parts[k] && ps[1..] == parts[k + 1..];
  }

  /** `PlacedAppend` with the second start and the joined lists named. */
  lemma PlacedCompose(ms1: seq<SuggestionMark>, t1: string, ms2: seq<SuggestionMark>, t2: string, base: nat, next: nat,
                      ms: seq<SuggestionMark>, text: string)
    requires next == base + |t1| && ms == ms1 + ms2 && text == t1 + t2
    requires Placed(ms1, t1, base) && Placed(ms2, t2, next)
    ensures Placed(ms, text, base)
  {
    PlacedAppend(ms1, t1, ms2, t2, base);
  }

  lemma {:induction false} PlacedFrom(parts: seq<DiffPart>, k: nat, from: nat, id: nat)
    requires k <= |parts|
    ensures Placed(MarksOfParts(parts, k, from, id), TextOfParts(parts, k), from)
    decreases |parts| - k
  {
    if k < |parts| {
      var ms := PartMarks(parts[k], from, id);
      var text := PartText(parts[k]);
      var next := from + |text|;
      PartMarksPlaced(parts[k], from, id);
      PlacedFrom(parts, k + 1, next, id + |ms|);
      MarksOfPartsStep(parts, k, from, id);
      TextOfPartsStep(parts, k);
      PlacedCompose(ms, text, MarksOfParts(parts, k + 1, next, id + |ms|), TextOfParts(parts, k + 1), from, next,
                    MarksOfParts(parts, k, from, id), TextOfParts(parts, k));
    }
  }

  /** `IdsAppend` with the second first id and the joined list named. */
  lemma IdsCompose(ms1: seq<SuggestionMark>, ms2: seq<SuggestionMark>, id: nat, next: nat, ms: seq<SuggestionMark>)
    requires next == id + |ms1| && ms == ms1 + ms2
    requires IdsFrom(ms1, id) && IdsFrom(ms2, next)
    ensures IdsFrom(ms, id)
  {
    IdsAppend(ms1, ms2, id);
  }

  lemma {:induction false} PartIdsFrom(parts: seq<DiffPart>, k: nat, from: nat, id: nat)
    requires k <= |parts|
    ensures IdsFrom(MarksOfParts(parts, k, from, id), id)
    decreases |parts| - k
  {
    if k < |parts| {
      var ms := PartMarks(parts[k], from, id);
      var next := from + |PartText(parts[k])|;
      PartMarksIds(parts[k], from, id);
      PartIdsFrom(parts, k + 1, next, id + |ms|);
      MarksOfPartsStep(parts, k, from, id);
      IdsCompose(ms, MarksOfParts(parts, k + 1, next, id + |ms|), id, id + |ms|, MarksOfParts(parts, k, from, id));
    }
  }

  // ---------------------------------------------------------------------
  // Reading the marks back
  // ---------------------------------------------------------------------

  /**
   * What a mark stands for in the text it was made from: the line break it
   * records for a line-break mark, the text it spans otherwise.
   */
  function MarkReading(m: SuggestionMark, text: string, base: nat): string {
    if m.isNewlineChange && m.newlineChar.Some? then m.newlineChar.value
    else if base <= m.from <= m.to <= base + |text| then text[m.from - base..m.to - base]
    else []
  }

  /** What a list of marks stands for, mark after mark. */
  function Reading(ms: seq<SuggestionMark>, text: string, base: nat): string {
    if ms == [] then [] else MarkReading(ms[0], text, base) + Reading(ms[1..], text, base)
  }

  /**
   * Marks that read, one by one, as the segments with their line breaks read
   * as `\n`, read together as the whole list of segments so read.
   */
  lemma {:induction false} ReadingPointwise(ms: seq<SuggestionMark>, segs: seq<Segment>, text: string, base: nat)
    requires |ms| == |segs|
    requires forall i :: 0 <= i < |ms| ==>
               MarkReading(ms[i], text, base) == if segs[i].isNewline then "\n" else segs[i].raw
    ensures Reading(ms, text, base) == BreaksAsLf(segs)
  {
    if ms != [] {
      var restMarks := ms[1..];
      var restSegs := segs[1..];
      forall i | 0 <= i < |restMarks|
        ensures MarkReading(restMarks[i], text, base) == if restSegs[i].isNewline then "\n" else restSegs[i].raw
      {
        assert restMarks[i] == ms[i + 1] && restSegs[i] == segs[i + 1];
      }
      ReadingPointwise(restMarks, restSegs, text, base);
    }
  }

  /**
   * The marks of a changed part, with every line-break mark read as the line
   * break it records, spell the part's value with normalised line endings.
   */
  lemma PartReading(p: DiffPart, from: nat, id: nat)
    requires IsChanged(p)
    ensures Reading(PartMarks(p, from, id), PartText(p), from) == NormalizeLineEndings(p.value)
  {
    var segs := Segments(p.value);
    var t := MarkTypeOf(p);
    var ms := SegmentMarks(segs, t, from, id);
    var text := SubstText(segs, t);
    SegmentMarksLength(segs, t, from, id);
    forall i | 0 <= i < |ms|
      ensures MarkReading(ms[i], text, from) == if segs[i].isNewline then "\n" else segs[i].raw
    {
      SegmentMarkAt(segs, t, from, id, i);
      SegmentMarkSpans(segs, t, from, id, i);
    }
    ReadingPointwise(ms, segs, text, from);
    BreaksAsLfNormalizes(p.value, 0);
    assert p.value[0..] == p.value;
  }

  /** The marks of all parts are placed over the inserted text. */
  lemma TranslationPlaced(parts: seq<DiffPart>, base: nat, id: nat)
    ensures Placed(MarksFrom(parts, base, id), InsertText(parts), base)
  {
    PlacedFrom(parts, 0, base, id);
    assert parts[0..] == parts;
  }

  /** The marks of all parts carry consecutive ids, starting at `id`. */
  lemma TranslationIds(parts: seq<DiffPart>, base: nat, id: nat)
    ensures IdsFrom(MarksFrom(parts, base, id), id)
  {
    PartIdsFrom(parts, 0, base, id);
    assert parts[0..] == parts;
  }

  /**
   * What the translator hands to the store: non-empty marks in order, never
   * overlapping, inside `[base, base + |insertText|)`, with strictly
   * increasing starts.
   */
  lemma TranslationWellPlaced(parts: seq<DiffPart>, base: nat, id: nat)
    ensures WellPlaced(MarksFrom(parts, base, id), Range(base, base + |InsertText(parts)|))
    ensures var ms := MarksFrom(parts, base, id);
      forall i, j :: 0 <= i < j < |ms| ==> ms[i].from < ms[j].from
  {
    var ms := MarksFrom(parts, base, id);
    TranslationPlaced(parts, base, id);
    PlacedIsWellPlaced(ms, InsertText(parts), base);
    forall i, j | 0 <= i < j < |ms|
      ensures ms[i].from < ms[j].from
    {
      OrderedStartsIncrease(ms, i, j);
    }
  }

  /** The values of the parts, joined. */
  function Values(parts: seq<DiffPart>): string {
    if parts == [] then [] else parts[0].value + Values(parts[1..])
  }

  lemma HasNoCrAppend(a: string, b: string)
    requires HasNoCr(a + b)
    ensures HasNoCr(a) && HasNoCr(b)
  {
    assert forall k :: 0 <= k < |a| ==> a[k] == (a + b)[k];
    assert forall k :: 0 <= k < |b| ==> b[k] == (a + b)[|a| + k];
  }

  /**
   * Without an added or removed part there are no marks, and when the parts
   * spell a text with normalised line endings (as the diff of two normalised
   * texts does) the inserted text is that text itself.
   */
  lemma {:induction false} NoChangeTranslation(parts: seq<DiffPart>, base: nat, id: nat)
    requires forall k :: 0 <= k < |parts| ==> !IsChanged(parts[k])
    requires HasNoCr(Values(parts))
    ensures MarksFrom(parts, base, id) == []
    ensures InsertText(parts) == Values(parts)
  {
    if parts != [] {
      var p := parts[0];
      assert !IsChanged(p);
      HasNoCrAppend(p.value, Values(parts[1..]));
      NormalizeWithoutCr(p.value);
      NoChangeTranslation(parts[1..], base + |PartText(p)|, id);
    }
  }
}
