/**
 * The editor document as the transformer sees it: its text and the cursor,
 * with the one change the transformer makes to it, a splice that replaces a
 * range by new text and puts the cursor after it.
 */
module Editor {

  /** `text` with `[from, to)` replaced by `insert`. */
  function Splice(text: string, from: nat, to: nat, insert: string): (r: string)
    requires from <= to <= |text|
    ensures |r| == |text| - (to - from) + |insert|
    ensures r[..from] == text[..from]
    ensures r[from..from + |insert|] == insert
    ensures r[from + |insert|..] == text[to..]
  {
    var r := text[..from] + insert + text[to..];
    assert r[..from] == text[..from];
    assert r[from..from + |insert|] == insert;
    assert r[from + |insert|..] == text[to..];
    r
  }

  /** Splicing back the text a splice removed restores the original. */
  lemma SpliceUndo(text: string, from: nat, to: nat, insert: string)
    requires from <= to <= |text|
    ensures Splice(Splice(text, from, to, insert), from, from + |insert|, text[from..to]) == text
  {
    var r := Splice(text, from, to, insert);
    var back := Splice(r, from, from + |insert|, text[from..to]);
    assert back == text[..from] + text[from..to] + text[to..];
    assert text == text[..from] + text[from..to] + text[to..];
  }

  class Document {
    var text: string
    var cursor: nat

    ghost predicate Valid()
      reads this
    {
      cursor <= |text|
    }

    constructor (initial: string, at: nat)
      requires at <= |initial|
      ensures Valid() && text == initial && cursor == at
    {
      text := initial;
      cursor := at;
    }

    /** The text of `[from, to)`. */
    function Slice(from: nat, to: nat): (s: string)
      reads this
      requires from <= to <= |text|
      ensures |s| == to - from
      ensures forall k :: 0 <= k < |s| ==> s[k] == text[from + k]
    {
      text[from..to]
    }

    /** Replace `[from, to)` by `insert` and put the cursor right after the inserted text. */
    method Replace(from: nat, to: nat, insert: string)
      requires from <= to <= |text|
      modifies this
      ensures Valid()
      ensures text == Splice(old(text), from, to, insert)
      ensures cursor == from + |insert|
    {
      text := Splice(text, from, to, insert);
      cursor := from + |insert|;
    }
  }
}
