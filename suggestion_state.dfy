/**
 * The suggestion store of the editor: the marks currently shown for review
 * and the document range they belong to, with the two effects the
 * transformer sends it (clear everything, then install a new set), and the
 * counter that hands out suggestion ids.
 */
module SuggestionState {
  import opened Wrappers
  import opened SuggestionMarks

  class SuggestionStore {
    var marks: seq<SuggestionMark>
    var scope: Option<Range>

    /** Marks are only held together with a scope, and then lie well placed inside it. */
    ghost predicate Valid()
      reads this
    {
      match scope
      case None => marks == []
      case Some(r) => WellPlaced(marks, r)
    }

    /** Whether suggestions are awaiting review. */
    predicate HasActive()
      reads this
    {
      |marks| > 0
    }

    constructor ()
      ensures Valid() && marks == [] && scope == None
    {
      marks := [];
      scope := None;
    }

    /** The clear-all effect: no marks and no scope remain. */
    method Clear()
      modifies this
      ensures Valid() && marks == [] && scope == None
    {
      marks := [];
      scope := None;
    }

    /** The set effect: the given marks, over the given scope, replace what was held. */
    method Set(ms: seq<SuggestionMark>, r: Range)
      requires WellPlaced(ms, r)
      modifies this
      ensures Valid() && marks == ms && scope == Some(r)
    {
      marks := ms;
      scope := Some(r);
    }
  }

  /** The source of fresh suggestion ids: each id handed out is one more than the last. */
  class IdCounter {
    var next: nat

    constructor (first: nat)
      ensures next == first
    {
      next := first;
    }

    /** Hand out `count` consecutive ids, the first of which is returned. */
    method Take(count: nat) returns (first: nat)
      modifies this
      ensures first == old(next) && next == old(next) + count
    {
      first := next;
      next := next + count;
    }
  }
}
