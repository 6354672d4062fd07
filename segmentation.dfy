/**
 * Segmentation of one added or removed diff part: the value is cut, left to
 * right, into line-break segments (`\n`, `\r\n` or `\r`, each consumed whole)
 * and plain segments (the longest run up to the next line break or the end).
 * Each segment later becomes exactly one suggestion mark.
 */
module Segmentation {
  import opened Wrappers
  import opened JsStrings

  predicate IsBreakChar(c: char) {
    c == '\n' || c == '\r'
  }

  /** The text holds neither `\n` nor `\r`. */
  predicate NoBreakChar(s: string) {
    forall k :: 0 <= k < |s| ==> !IsBreakChar(s[k])
  }

  /** No `\n` or `\r` in `v[lo..hi]`. */
  predicate NoBreakBetween(v: string, lo: nat, hi: nat)
    requires lo <= hi <= |v|
  {
    forall j :: lo <= j < hi ==> !IsBreakChar(v[j])
  }

  /** One of the three line-break sequences. */
  predicate IsLineBreak(s: string) {
    s == "\n" || s == "\r\n" || s == "\r"
  }

  /**
   * The length of the line break starting at `pos`, or 0. A CR directly
   * followed by LF is one break of length 2.
   */
  function LineBreakAt(v: string, pos: nat): (n: nat)
    requires pos <= |v|
    ensures pos + n <= |v|
  {
    if pos == |v| || !IsBreakChar(v[pos]) then 0
    else if v[pos] == '\r' && pos + 1 < |v| && v[pos + 1] == '\n' then 2
    else 1
  }

  /** The end of the run of non-break characters that starts at `pos`. */
  function PlainEnd(v: string, pos: nat): (e: nat)
    requires pos <= |v|
    ensures pos <= e <= |v|
    decreases |v| - pos
  {
    if pos == |v| || IsBreakChar(v[pos]) then pos else PlainEnd(v, pos + 1)
  }

  /** The run holds no break character and stops at the end or at a break. */
  lemma {:induction false} PlainEndFacts(v: string, pos: nat)
    requires pos <= |v|
    ensures NoBreakBetween(v, pos, PlainEnd(v, pos))
    ensures PlainEnd(v, pos) < |v| ==> IsBreakChar(v[PlainEnd(v, pos)])
    decreases |v| - pos
  {
    if pos < |v| && !IsBreakChar(v[pos]) {
      PlainEndFacts(v, pos + 1);
    }
  }

  /** A segment: the raw text it consumed, and whether it is a line break. */
  datatype Segment = Segment(raw: string, isNewline: bool)

  /** The segment that starts at `pos`: the line break there, or the plain run up to the next one. */
  function SegmentAt(v: string, pos: nat): (seg: Segment)
    requires pos < |v|
    ensures 0 < |seg.raw| && pos + |seg.raw| <= |v|
  {
    var n := LineBreakAt(v, pos);
    if n > 0 then Segment(v[pos..pos + n], true)
    else Segment(v[pos..PlainEnd(v, pos)], false)
  }

  /**
   * What `SegmentAt` finds: a non-empty piece of `v` at `pos`; a line break
   * exactly when `v[pos]` is `\n` or `\r`, and then one of the three breaks
   * with a lone `\r` never followed by `\n`; otherwise a run without breaks
   * that reaches the end of `v` or a break.
   */
  lemma SegmentAtFacts(v: string, pos: nat)
    requires pos < |v|
    ensures var seg := SegmentAt(v, pos);
      && seg.raw == v[pos..pos + |seg.raw|]
      && (seg.isNewline <==> IsBreakChar(v[pos]))
      && (seg.isNewline ==> IsLineBreak(seg.raw))
      && (seg.isNewline && seg.raw == "\r" ==> pos + 1 == |v| || v[pos + 1] != '\n')
      && (!seg.isNewline ==> NoBreakChar(seg.raw))
      && (!seg.isNewline ==> pos + |seg.raw| == |v| || IsBreakChar(v[pos + |seg.raw|]))
  {
    if LineBreakAt(v, pos) == 0 {
      PlainEndFacts(v, pos);
      NoBreakSlice(v, pos, PlainEnd(v, pos));
    } else if LineBreakAt(v, pos) == 2 {
      assert v[pos..pos + 2] == [v[pos], v[pos + 1]];
    } else {
      assert v[pos..pos + 1] == [v[pos]];
    }
  }

  lemma NoBreakSlice(v: string, lo: nat, hi: nat)
    requires lo <= hi <= |v| && NoBreakBetween(v, lo, hi)
    ensures NoBreakChar(v[lo..hi])
  {
    forall k | 0 <= k < hi - lo ensures !IsBreakChar(v[lo..hi][k]) {
      assert v[lo..hi][k] == v[lo + k];
    }
  }

  // The translator's own way of finding these two positions, with JavaScript's
  // `startsWith` and `indexOf`, and the proof that it finds the same ones.

  /** The line-break sequences, in the order the translator tries and searches them. */
  const LineBreaks: seq<string> := ["\n", "\r\n", "\r"]

  /**
   * Trying `startsWith("\n")`, then `startsWith("\r\n")`, then `startsWith("\r")`
   * at `pos` finds the break `LineBreakAt` describes: the first test that holds
   * gives its length, and none holds exactly where no break starts.
   */
  lemma StartsWithChainFindsBreak(v: string, pos: nat)
    requires pos <= |v|
    ensures OccursAt(v, "\n", pos) ==> LineBreakAt(v, pos) == 1
    ensures !OccursAt(v, "\n", pos) && OccursAt(v, "\r\n", pos) ==> LineBreakAt(v, pos) == 2
    ensures !OccursAt(v, "\n", pos) && !OccursAt(v, "\r\n", pos) && OccursAt(v, "\r", pos) ==> LineBreakAt(v, pos) == 1
    ensures !OccursAt(v, "\n", pos) && !OccursAt(v, "\r\n", pos) && !OccursAt(v, "\r", pos) ==> LineBreakAt(v, pos) == 0
  {
    if pos < |v| {
      assert v[pos..pos + 1] == [v[pos]];
      if pos + 1 < |v| {
        assert v[pos..pos + 2] == [v[pos], v[pos + 1]];
      }
    }
  }

  /** One step of `nextNewlineIndex = Math.min(nextNewlineIndex, idx)` for a found `idx`; `None` is +infinity. */
  function MinFound(best: Option<nat>, idx: int): (r: Option<nat>)
    requires idx >= -1
  {
    if idx == -1 then best
    else if best.Some? && best.value <= idx then best
    else Some(idx)
  }

  /** The earliest index at or after `pos` where any of `breaks` occurs, folded in list order. */
  function EarliestBreak(v: string, pos: nat, breaks: seq<string>): (best: Option<nat>)
    requires pos <= |v|
    ensures best.None? ==> forall k, j :: 0 <= k < |breaks| && pos <= j <= |v| ==> !OccursAt(v, breaks[k], j)
    ensures best.Some? ==> pos <= best.value && exists k :: 0 <= k < |breaks| && OccursAt(v, breaks[k], best.value)
    ensures best.Some? ==> forall k, j :: 0 <= k < |breaks| && pos <= j < best.value ==> !OccursAt(v, breaks[k], j)
  {
    if breaks == [] then None
    else
      var init := breaks[..|breaks| - 1];
      var last := |breaks| - 1;
      var prev := EarliestBreak(v, pos, init);
      assert forall k :: 0 <= k < last ==> breaks[k] == init[k];
      MinFound(prev, IndexOf(v, breaks[last], pos))
  }

  /**
   * Where the translator ends a plain segment: the least index any of the three
   * `indexOf` searches finds, or the end of the value when none finds one. It
   * is the end of the run of non-break characters.
   */
  lemma EarliestBreakEndsRun(v: string, pos: nat)
    requires pos <= |v|
    ensures var best := EarliestBreak(v, pos, LineBreaks);
      (if best.None? then |v| else best.value) == PlainEnd(v, pos)
  {
    var best := EarliestBreak(v, pos, LineBreaks);
    var e := if best.None? then |v| else best.value;
    assert pos <= e <= |v|;
    forall j | pos <= j < e ensures !IsBreakChar(v[j]) {
      assert !OccursAt(v, LineBreaks[0], j) && !OccursAt(v, LineBreaks[2], j);
      assert v[j..j + 1] == [v[j]];
    }
    assert e < |v| ==> IsBreakChar(v[e]) by {
      if e < |v| {
        var k :| 0 <= k < |LineBreaks| && OccursAt(v, LineBreaks[k], e);
        assert v[e] == LineBreaks[k][0];
      }
    }
    PlainEndUnique(v, pos, e);
  }

  /** The end of a run is the first break character: any position with the run's two properties is it. */
  lemma PlainEndUnique(v: string, pos: nat, e: nat)
    requires pos <= e <= |v|
    requires forall j :: pos <= j < e ==> !IsBreakChar(v[j])
    requires e < |v| ==> IsBreakChar(v[e])
    ensures e == PlainEnd(v, pos)
    decreases e - pos
  {
    if pos < e {
      PlainEndUnique(v, pos + 1, e);
    }
  }

  /** The segments of `v[pos..]`, in order. */
  function SegmentsFrom(v: string, pos: nat): seq<Segment>
    requires pos <= |v|
    decreases |v| - pos
  {
    if pos == |v| then []
    else
      var seg := SegmentAt(v, pos);
      [seg] + SegmentsFrom(v, pos + |seg.raw|)
  }

  function Segments(v: string): seq<Segment> {
    SegmentsFrom(v, 0)
  }

  /** `SegmentsFrom` unfolded once, away from the end of the text. */
  lemma SegmentsFromUnfold(v: string, pos: nat)
    requires pos < |v|
    ensures SegmentsFrom(v, pos) == [SegmentAt(v, pos)] + SegmentsFrom(v, pos + |SegmentAt(v, pos).raw|)
  {
  }

  /** The raw texts of the segments, concatenated. */
  function Raw(segs: seq<Segment>): string {
    if segs == [] then [] else segs[0].raw + Raw(segs[1..])
  }

  /** A segment on its own: not empty, one of the three breaks, or plain text without a break. */
  predicate SegmentShapeOk(seg: Segment) {
    |seg.raw| > 0 &&
    (seg.isNewline ==> IsLineBreak(seg.raw)) &&
    (!seg.isNewline ==> NoBreakChar(seg.raw))
  }

  /**
   * Two neighbouring segments: plain text is always ended by a line break (so
   * plain segments are maximal), and a lone `\r` is never followed by `\n`
   * (a CRLF pair is one segment).
   */
  predicate MayFollow(a: Segment, b: Segment) {
    (!a.isNewline ==> b.isNewline) &&
    !(a.raw == "\r" && |b.raw| > 0 && b.raw[0] == '\n')
  }

  /** What a segmentation must look like, segment by segment and pair by pair. */
  predicate WellSegmented(segs: seq<Segment>)
    decreases |segs|
  {
    segs == [] ||
    (SegmentShapeOk(segs[0]) &&
     (|segs| > 1 ==> MayFollow(segs[0], segs[1])) &&
     WellSegmented(segs[1..]))
  }

  /** The raw texts with every line-break segment read as a single `\n`. */
  function BreaksAsLf(segs: seq<Segment>): string {
    if segs == [] then [] else (if segs[0].isNewline then "\n" else segs[0].raw) + BreaksAsLf(segs[1..])
  }

  /** Segmentation is lossless: the segments of `v[pos..]` concatenate back to it. */
  lemma {:induction false} SegmentsTile(v: string, pos: nat)
    requires pos <= |v|
    ensures Raw(SegmentsFrom(v, pos)) == v[pos..]
    decreases |v| - pos
  {
    if pos < |v| {
      var seg := SegmentAt(v, pos);
      var next := pos + |seg.raw|;
      var rest := SegmentsFrom(v, next);
      SegmentAtFacts(v, pos);
      RawCons(seg, rest);
      SegmentsTile(v, next);
      SliceSplit(v, pos, next);
    }
  }

  lemma SliceSplit(v: string, lo: nat, mid: nat)
    requires lo <= mid <= |v|
    ensures v[lo..] == v[lo..mid] + v[mid..]
  {
  }

  lemma RawCons(seg: Segment, rest: seq<Segment>)
    ensures Raw([seg] + rest) == seg.raw + Raw(rest)
  {
    var segs := [seg] + rest;
    assert segs[0] == seg && segs[1..] == rest;
  }

  /** An empty value has no segments, a non-empty one has at least one. */
  lemma SegmentsEmptyIff(v: string)
    ensures Segments(v) == [] <==> v == []
  {
  }

  /** Prepending a segment that fits in front keeps a segmentation well shaped. */
  lemma WellSegmentedCons(seg: Segment, rest: seq<Segment>)
    requires SegmentShapeOk(seg) && WellSegmented(rest)
    requires rest != [] ==> MayFollow(seg, rest[0])
    ensures WellSegmented([seg] + rest)
  {
    var segs := [seg] + rest;
    assert segs[0] == seg && segs[1..] == rest;
    assert |segs| > 1 ==> segs[1] == rest[0];
  }

  /** Two segments the scan finds one after the other fit together. */
  lemma ScanMayFollow(v: string, pos: nat)
    requires pos < |v| && pos + |SegmentAt(v, pos).raw| < |v|
    ensures MayFollow(SegmentAt(v, pos), SegmentAt(v, pos + |SegmentAt(v, pos).raw|))
  {
    SegmentAtFacts(v, pos);
    SegmentAtFacts(v, pos + |SegmentAt(v, pos).raw|);
  }

  /** The translator's segmentation has the shape `WellSegmented` describes. */
  lemma {:induction false} SegmentsWellSegmented(v: string, pos: nat)
    requires pos <= |v|
    ensures WellSegmented(SegmentsFrom(v, pos))
    decreases |v| - pos
  {
    if pos < |v| {
      var seg := SegmentAt(v, pos);
      var next := pos + |seg.raw|;
      var rest := SegmentsFrom(v, next);
      SegmentAtFacts(v, pos);
      SegmentsWellSegmented(v, next);
      if next < |v| {
        SegmentsFromUnfold(v, next);
        ScanMayFollow(v, pos);
      }
      WellSegmentedCons(seg, rest);
      SegmentsFromUnfold(v, pos);
    }
  }

  lemma BreakSegmentIsSegmentAt(v: string, pos: nat, seg: Segment)
    requires seg.isNewline && IsLineBreak(seg.raw)
    requires pos + |seg.raw| <= |v| && v[pos..pos + |seg.raw|] == seg.raw
    requires seg.raw == "\r" && pos + 1 < |v| ==> v[pos + 1] != '\n'
    ensures SegmentAt(v, pos) == seg
  {
    assert v[pos] == seg.raw[0];
    if seg.raw == "\r\n" {
      assert v[pos + 1] == seg.raw[1];
    }
  }

  lemma PlainSegmentIsSegmentAt(v: string, pos: nat, seg: Segment)
    requires !seg.isNewline && |seg.raw| > 0
    requires NoBreakChar(seg.raw)
    requires pos + |seg.raw| <= |v| && v[pos..pos + |seg.raw|] == seg.raw
    requires pos + |seg.raw| < |v| ==> IsBreakChar(v[pos + |seg.raw|])
    ensures SegmentAt(v, pos) == seg
  {
    var L := |seg.raw|;
    assert v[pos] == seg.raw[0];
    forall j | pos <= j < pos + L ensures !IsBreakChar(v[j]) {
      assert v[j] == seg.raw[j - pos];
    }
    PlainEndUnique(v, pos, pos + L);
  }

  /** The first segment of a well-shaped cut of `v[pos..]` is the one the scan finds at `pos`. */
  lemma HeadSegmentIsSegmentAt(v: string, pos: nat, segs: seq<Segment>)
    requires pos <= |v|
    requires WellSegmented(segs) && segs != [] && Raw(segs) == v[pos..]
    ensures pos + |segs[0].raw| <= |v| && v[pos..pos + |segs[0].raw|] == segs[0].raw
    ensures Raw(segs[1..]) == v[pos + |segs[0].raw|..]
    ensures SegmentAt(v, pos) == segs[0]
  {
    var seg := segs[0];
    var L := |seg.raw|;
    var rest := segs[1..];
    assert v[pos..] == seg.raw + Raw(rest);
    assert v[pos..pos + L] == v[pos..][..L];
    assert v[pos + L..] == v[pos..][L..];
    if rest != [] {
      assert Raw(rest) == rest[0].raw + Raw(rest[1..]);
      assert v[pos + L] == v[pos + L..][0];
      assert v[pos + L] == rest[0].raw[0];
    }
    if seg.isNewline {
      BreakSegmentIsSegmentAt(v, pos, seg);
    } else {
      if rest != [] {
        assert rest[0].isNewline && IsLineBreak(rest[0].raw);
      }
      PlainSegmentIsSegmentAt(v, pos, seg);
    }
  }

  lemma ConsOfTail(segs: seq<Segment>)
    requires segs != []
    ensures segs == [segs[0]] + segs[1..]
  {
  }

  /** A well-shaped cut has no raw text exactly when it has no segments. */
  lemma RawEmptyIff(segs: seq<Segment>)
    requires WellSegmented(segs)
    ensures Raw(segs) == [] <==> segs == []
  {
    if segs != [] {
      assert |Raw(segs)| >= |segs[0].raw|;
    }
  }

  /** A well-shaped cut of a text into segments is unique. */
  lemma {:induction false} WellSegmentedUnique(a: seq<Segment>, b: seq<Segment>)
    requires WellSegmented(a) && WellSegmented(b) && Raw(a) == Raw(b)
    ensures a == b
    decreases |a|
  {
    var s := Raw(a);
    assert s[0..] == s;
    RawEmptyIff(a);
    RawEmptyIff(b);
    if a != [] {
      HeadSegmentIsSegmentAt(s, 0, a);
      HeadSegmentIsSegmentAt(s, 0, b);
      WellSegmentedUnique(a[1..], b[1..]);
      ConsOfTail(a);
      ConsOfTail(b);
    }
  }

  /**
   * `WellSegmented` pins the segmentation down: any well-shaped cut of
   * `v[pos..]` into segments is the translator's.
   */
  lemma SegmentationUnique(v: string, pos: nat, segs: seq<Segment>)
    requires pos <= |v|
    requires WellSegmented(segs) && Raw(segs) == v[pos..]
    ensures segs == SegmentsFrom(v, pos)
  {
    SegmentsTile(v, pos);
    SegmentsWellSegmented(v, pos);
    WellSegmentedUnique(segs, SegmentsFrom(v, pos));
  }

  /** Normalising text that starts with a line break turns that break into one `\n`. */
  lemma NormalizeLeadingBreak(s: string, raw: string)
    requires IsLineBreak(raw) && |raw| <= |s| && s[..|raw|] == raw
    requires raw == "\r" ==> |s| == 1 || s[1] != '\n'
    ensures NormalizeLineEndings(s) == "\n" + NormalizeLineEndings(s[|raw|..])
  {
    assert s[0] == raw[0];
    if raw == "\n" {
      assert NormalizeLineEndings(s) == [s[0]] + NormalizeLineEndings(s[1..]);
    } else if raw == "\r\n" {
      assert s[1] == raw[1];
      assert NormalizeLineEndings(s) == "\n" + NormalizeLineEndings(s[2..]);
    } else {
      assert raw == "\r";
      assert NormalizeLineEndings(s) == "\n" + NormalizeLineEndings(s[1..]);
    }
  }

  /** One segment of the scan, read with its break as `\n`, is the normalised head of `v[pos..]`. */
  lemma NormalizeSegmentStep(v: string, pos: nat)
    requires pos < |v|
    ensures var seg := SegmentAt(v, pos);
      NormalizeLineEndings(v[pos..]) ==
        (if seg.isNewline then "\n" else seg.raw) + NormalizeLineEndings(v[pos + |seg.raw|..])
  {
    var seg := SegmentAt(v, pos);
    SegmentAtFacts(v, pos);
    var L := |seg.raw|;
    var s := v[pos..];
    assert s[..L] == seg.raw;
    assert s[L..] == v[pos + L..];
    if seg.isNewline {
      assert seg.raw == "\r" && |s| > 1 ==> s[1] != '\n' by {
        if seg.raw == "\r" && |s| > 1 {
          assert s[1] == v[pos + 1];
        }
      }
      NormalizeLeadingBreak(s, seg.raw);
    } else {
      NormalizePlainPrefix(s, seg.raw);
    }
  }

  lemma NormalizePlainPrefix(s: string, raw: string)
    requires |raw| <= |s| && s[..|raw|] == raw
    requires NoBreakChar(raw)
    ensures NormalizeLineEndings(s) == raw + NormalizeLineEndings(s[|raw|..])
  {
    assert s == raw + s[|raw|..];
    NormalizeAppendNoCr(raw, s[|raw|..]);
  }

  /** `BreaksAsLf` of a non-empty list, split into its head and its tail. */
  lemma BreaksAsLfCons(seg: Segment, rest: seq<Segment>)
    ensures BreaksAsLf([seg] + rest) == (if seg.isNewline then "\n" else seg.raw) + BreaksAsLf(rest)
  {
    var segs := [seg] + rest;
    assert segs[0] == seg && segs[1..] == rest;
  }

  /**
   * Reading every line-break segment as `\n` gives the value with its line
   * endings normalised, exactly as `replace(/\r\n|\r/g, "\n")` does.
   */
  lemma {:induction false} BreaksAsLfNormalizes(v: string, pos: nat)
    requires pos <= |v|
    ensures BreaksAsLf(SegmentsFrom(v, pos)) == NormalizeLineEndings(v[pos..])
    decreases |v| - pos
  {
    if pos < |v| {
      var seg := SegmentAt(v, pos);
      var next := pos + |seg.raw|;
      var head := if seg.isNewline then "\n" else seg.raw;
      calc {
        BreaksAsLf(SegmentsFrom(v, pos));
        { SegmentsFromUnfold(v, pos); }
        BreaksAsLf([seg] + SegmentsFrom(v, next));
        { BreaksAsLfCons(seg, SegmentsFrom(v, next)); }
        head + BreaksAsLf(SegmentsFrom(v, next));
        { BreaksAsLfNormalizes(v, next); }
        head + NormalizeLineEndings(v[next..]);
        { NormalizeSegmentStep(v, pos); }
        NormalizeLineEndings(v[pos..]);
      }
    }
  }
}
