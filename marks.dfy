/**
 * The data the translator consumes and produces: word-diff parts and
 * suggestion marks, with the predicates that say when a list of marks is
 * well placed inside a document range.
 */
module SuggestionMarks {
  import opened Wrappers

  /** One part of a word-level diff: a literal value tagged added, removed or neither (unchanged). */
  datatype DiffPart = DiffPart(value: string, added: bool, removed: bool)

  datatype MarkType = Added | Removed

  /** A half-open range of document offsets. */
  datatype Range = Range(from: nat, to: nat)

  /**
   * One reviewable span `[from, to)` of the document after the edit.
   * A plain mark carries no newline fields in the source: here
   * `isNewlineChange` is then false and `newlineChar` is `None`.
   */
  datatype SuggestionMark = SuggestionMark(
    id: nat,
    from: nat,
    to: nat,
    markType: MarkType,
    isNewlineChange: bool,
    newlineChar: Option<string>)

  /** The one-character symbols that stand for an added and for a removed line break. */
  const NewlineAddSymbol: string := "\U{21B5}"
  const NewlineRemoveSymbol: string := "\U{B6}"

  function NewlineSymbol(t: MarkType): (sym: string)
    ensures |sym| == 1
    ensures sym == NewlineAddSymbol <==> t == Added
  {
    if t == Added then NewlineAddSymbol else NewlineRemoveSymbol
  }

  /** No mark is empty. */
  predicate NonEmpty(ms: seq<SuggestionMark>) {
    forall i :: 0 <= i < |ms| ==> ms[i].from < ms[i].to
  }

  /** Every mark ends before (or where) any later mark starts: sorted and non-overlapping. */
  predicate Ordered(ms: seq<SuggestionMark>) {
    forall i, j :: 0 <= i < j < |ms| ==> ms[i].to <= ms[j].from
  }

  /** Every mark lies inside `[lo, hi)`. */
  predicate Within(ms: seq<SuggestionMark>, lo: nat, hi: nat) {
    forall i :: 0 <= i < |ms| ==> lo <= ms[i].from && ms[i].to <= hi
  }

  /** The marks carry the consecutive ids `first`, `first + 1`, ... */
  predicate IdsFrom(ms: seq<SuggestionMark>, first: nat) {
    forall i :: 0 <= i < |ms| ==> ms[i].id == first + i
  }

  /** What a mark list in a store must satisfy relative to its scope. */
  predicate WellPlaced(ms: seq<SuggestionMark>, scope: Range) {
    NonEmpty(ms) && Ordered(ms) && Within(ms, scope.from, scope.to)
  }

  /** Non-empty, non-overlapping marks in order have strictly increasing starts. */
  lemma OrderedStartsIncrease(ms: seq<SuggestionMark>, i: nat, j: nat)
    requires NonEmpty(ms) && Ordered(ms)
    requires i < j < |ms|
    ensures ms[i].from < ms[j].from
  {
    assert ms[i].from < ms[i].to;
  }
}
