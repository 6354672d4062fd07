/**
 * The text a selection-or-paragraph transformation works on. The editor
 * document is seen as its lines (numbered from 1, joined by line breaks);
 * an empty selection widens to the paragraph around the cursor line, the
 * run of neighbouring non-blank lines.
 */
module Paragraph {
  import opened JsStrings
  import opened SuggestionMarks
  import Editor

  /** The lines of a document, joined by `\n`. */
  function Join(ls: seq<string>): string {
    if ls == [] then []
    else if |ls| == 1 then ls[0]
    else ls[0] + "\n" + Join(ls[1..])
  }

  /** Line `n`, counted from 1 as the editor counts. */
  function Line(ls: seq<string>, n: nat): string
    requires 1 <= n <= |ls|
  {
    ls[n - 1]
  }

  /** The offset just past the line break that ends the `k`-th line: where line `k + 1` starts. */
  function Offset(ls: seq<string>, k: nat): nat
    requires k <= |ls|
  {
    if k == 0 then 0 else Offset(ls, k - 1) + |ls[k - 1]| + 1
  }

  /** Where line `n` starts in the joined text. */
  function LineStart(ls: seq<string>, n: nat): nat
    requires 1 <= n <= |ls|
  {
    Offset(ls, n - 1)
  }

  /** Where line `n` ends in the joined text (the offset of its line break, or the end of the text). */
  function LineEnd(ls: seq<string>, n: nat): nat
    requires 1 <= n <= |ls|
  {
    Offset(ls, n - 1) + |ls[n - 1]|
  }

  lemma {:induction false} JoinSplit(ls: seq<string>, k: nat)
    requires 0 < k < |ls|
    ensures Join(ls) == Join(ls[..k]) + "\n" + Join(ls[k..])
  {
    if k > 1 {
      var tail := ls[1..];
      JoinSplit(tail, k - 1);
      assert tail[..k - 1] == ls[1..k] && tail[k - 1..] == ls[k..];
      var head := ls[..k];
      assert head[0] == ls[0] && head[1..] == ls[1..k];
    }
  }

  lemma {:induction false} JoinLength(ls: seq<string>, k: nat)
    requires 0 < k <= |ls|
    ensures |Join(ls[..k])| + 1 == Offset(ls, k)
  {
    if k > 1 {
      var p := ls[..k];
      JoinSplit(p, k - 1);
      assert p[..k - 1] == ls[..k - 1] && p[k - 1..] == [ls[k - 1]];
      JoinLength(ls, k - 1);
    }
  }

  /** The whole text is as long as the end of its last line. */
  lemma TextLength(ls: seq<string>)
    requires ls != []
    ensures |Join(ls)| == LineEnd(ls, |ls|)
  {
    JoinLength(ls, |ls|);
    assert ls[..|ls|] == ls;
  }

  /** The text from the start of line `i + 1` to the end of line `j` is those lines joined. */
  lemma JoinSlice(ls: seq<string>, i: nat, j: nat)
    requires i < j <= |ls|
    ensures Offset(ls, i) + |Join(ls[i..j])| + 1 == Offset(ls, j) <= |Join(ls)| + 1
    ensures Join(ls)[Offset(ls, i)..Offset(ls, j) - 1] == Join(ls[i..j])
  {
    var p := ls[..j];
    var jp := Join(p);
    JoinLength(ls, j);
    TextLength(ls);
    OffsetMonotone(ls, j, |ls|);
    if j < |ls| {
      JoinSplit(ls, j);
      assert Join(ls)[..|jp|] == jp;
    } else {
      assert p == ls;
    }
    if i == 0 {
      assert p == ls[i..j];
    } else {
      JoinSplit(p, i);
      assert p[..i] == ls[..i] && p[i..] == ls[i..j];
      JoinLength(ls, i);
      assert jp[Offset(ls, i)..] == Join(ls[i..j]);
    }
  }

  /** `doc.lineAt(pos)`, searching from line `n` on: the line whose extent holds `pos`. */
  function LineAtFrom(ls: seq<string>, n: nat, pos: nat): (r: nat)
    requires 1 <= n <= |ls|
    requires LineStart(ls, n) <= pos <= LineEnd(ls, |ls|)
    ensures n <= r <= |ls|
    ensures LineStart(ls, r) <= pos <= LineEnd(ls, r)
    decreases |ls| - n
  {
    if pos <= LineEnd(ls, n) || n == |ls| then n else LineAtFrom(ls, n + 1, pos)
  }

  /** `doc.lineAt(pos)`: the number of the line holding offset `pos`. */
  function LineAt(ls: seq<string>, pos: nat): (r: nat)
    requires ls != [] && pos <= |Join(ls)|
    ensures 1 <= r <= |ls|
    ensures LineStart(ls, r) <= pos <= LineEnd(ls, r)
  {
    TextLength(ls);
    LineAtFrom(ls, 1, pos)
  }

  /**
   * Lines `startLine` to `endLine` are the paragraph around line `cursorLine`:
   * every line between them other than the cursor line is non-blank, and the
   * line just outside each bound is blank or does not exist.
   */
  predicate IsParagraph(ls: seq<string>, cursorLine: nat, startLine: nat, endLine: nat) {
    && 1 <= startLine <= cursorLine <= endLine <= |ls|
    && (forall n :: startLine <= n < cursorLine ==> !IsBlank(Line(ls, n)))
    && (startLine == 1 || IsBlank(Line(ls, startLine - 1)))
    && (forall n :: cursorLine < n <= endLine ==> !IsBlank(Line(ls, n)))
    && (endLine == |ls| || IsBlank(Line(ls, endLine + 1)))
  }

  /**
   * Grow the cursor line upward and downward while the neighbouring line is
   * non-blank. The result is the largest such run: every line between the
   * bounds other than the cursor line is non-blank, and the line just
   * outside each bound is blank or does not exist.
   */
  method ExpandParagraph(ls: seq<string>, cursorLine: nat) returns (startLine: nat, endLine: nat)
    requires 1 <= cursorLine <= |ls|
    ensures IsParagraph(ls, cursorLine, startLine, endLine)
  {
    startLine := ExpandUp(ls, cursorLine);
    endLine := ExpandDown(ls, cursorLine);
  }

  /** The first loop: move the start up while the line above is non-blank. */
  method ExpandUp(ls: seq<string>, cursorLine: nat) returns (startLine: nat)
    requires 1 <= cursorLine <= |ls|
    ensures 1 <= startLine <= cursorLine
    ensures forall n :: startLine <= n < cursorLine ==> !IsBlank(Line(ls, n))
    ensures startLine == 1 || IsBlank(Line(ls, startLine - 1))
  {
    startLine := cursorLine;
    while startLine > 1 && !IsBlank(Line(ls, startLine - 1))
      invariant 1 <= startLine <= cursorLine
      invariant forall n :: startLine <= n < cursorLine ==> !IsBlank(Line(ls, n))
    {
      startLine := startLine - 1;
    }
  }

  /** The second loop: move the end down while the line below is non-blank. */
  method ExpandDown(ls: seq<string>, cursorLine: nat) returns (endLine: nat)
    requires 1 <= cursorLine <= |ls|
    ensures cursorLine <= endLine <= |ls|
    ensures forall n :: cursorLine < n <= endLine ==> !IsBlank(Line(ls, n))
    ensures endLine == |ls| || IsBlank(Line(ls, endLine + 1))
  {
    endLine := cursorLine;
    while endLine < |ls| && !IsBlank(Line(ls, endLine + 1))
      invariant cursorLine <= endLine <= |ls|
      invariant forall n :: cursorLine < n <= endLine ==> !IsBlank(Line(ls, n))
    {
      endLine := endLine + 1;
    }
  }

  /** The paragraph around offset `head`: its lines, its range, and its text, the paragraph's lines joined. */
  method ParagraphAt(ls: seq<string>, head: nat) returns (startLine: nat, endLine: nat, range: Range, text: string)
    requires ls != [] && head <= |Join(ls)|
    ensures IsParagraph(ls, LineAt(ls, head), startLine, endLine)
    ensures range == Range(LineStart(ls, startLine), LineEnd(ls, endLine))
    ensures range.from <= head <= range.to <= |Join(ls)|
    ensures text == Join(ls)[range.from..range.to] == Join(ls[startLine - 1..endLine])
  {
    var cursorLine := LineAt(ls, head);
    startLine, endLine := ExpandParagraph(ls, cursorLine);
    range := Range(LineStart(ls, startLine), LineEnd(ls, endLine));
    ParagraphText(ls, startLine, endLine);
    LinesAround(ls, startLine, cursorLine, endLine);
    text := Join(ls)[range.from..range.to];
  }

  /** The text from the start of line `s` to the end of line `e` is lines `s` to `e` joined. */
  lemma ParagraphText(ls: seq<string>, s: nat, e: nat)
    requires 1 <= s <= e <= |ls|
    ensures LineStart(ls, s) <= LineEnd(ls, e) <= |Join(ls)|
    ensures Join(ls)[LineStart(ls, s)..LineEnd(ls, e)] == Join(ls[s - 1..e])
  {
    JoinSlice(ls, s - 1, e);
  }

  /** Lines `s <= c <= e` lie in order: line `c` is inside the extent of lines `s` to `e`. */
  lemma LinesAround(ls: seq<string>, s: nat, c: nat, e: nat)
    requires 1 <= s <= c <= e <= |ls|
    ensures LineStart(ls, s) <= LineStart(ls, c) && LineEnd(ls, c) <= LineEnd(ls, e)
  {
    OffsetMonotone(ls, s - 1, c - 1);
    OffsetMonotone(ls, c, e);
  }

  lemma {:induction false} OffsetMonotone(ls: seq<string>, i: nat, j: nat)
    requires i <= j <= |ls|
    ensures Offset(ls, i) <= Offset(ls, j)
    decreases j - i
  {
    if i < j {
      OffsetMonotone(ls, i, j - 1);
    }
  }

  /** Which part of the document a transformation works on. */
  datatype Scope = Document | Selection | Paragraph

  /**
   * The target of a text transformation in the document `doc`, whose lines
   * are `ls`: a non-empty selection is taken as it is; an empty one (a bare
   * cursor) widens to the paragraph around the cursor's line, lines
   * `startLine` to `endLine`. The text is what `doc` holds over the range.
   */
  method TextTarget(doc: Editor.Document, ls: seq<string>, selection: Range)
    returns (scope: Scope, range: Range, text: string, startLine: nat, endLine: nat)
    requires doc.text == Join(ls)
    requires ls != [] && selection.from <= selection.to <= |doc.text|
    ensures scope == Selection <==> selection.from < selection.to
    ensures scope != Document
    ensures range.from <= range.to <= |doc.text| && text == doc.text[range.from..range.to]
    ensures scope == Selection ==> range == selection
    ensures scope == Paragraph ==>
              && IsParagraph(ls, LineAt(ls, selection.from), startLine, endLine)
              && range == Range(LineStart(ls, startLine), LineEnd(ls, endLine))
              && range.from <= selection.from <= range.to
              && text == Join(ls[startLine - 1..endLine])
  {
    if selection.from == selection.to {
      var paragraph;
      startLine, endLine, range, paragraph := ParagraphAt(ls, selection.from);
      text := doc.Slice(range.from, range.to);
      scope := Paragraph;
    } else {
      range := selection;
      text := doc.Slice(range.from, range.to);
      scope := Selection;
      startLine, endLine := 0, 0;
    }
  }
}
