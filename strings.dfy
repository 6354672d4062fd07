/**
 * The JavaScript string primitives the text transformer relies on:
 * `startsWith`, `indexOf`, `replace` with a string pattern, `trim`, and the
 * line-ending normalisation `replace(/\r\n|\r/g, "\n")`.
 * Strings are sequences of characters; an index is a character position.
 */
module JsStrings {

  /** `s.startsWith(pat, i)`: `pat` occurs in `s` at index `i`. */
  predicate OccursAt(s: string, pat: string, i: nat) {
    i + |pat| <= |s| && s[i..i + |pat|] == pat
  }

  /** `s.indexOf(pat, from)`: the first index at or after `from` where `pat` occurs, or -1. */
  function IndexOf(s: string, pat: string, from: nat): (r: int)
    requires from <= |s|
    ensures r == -1 || (from <= r && OccursAt(s, pat, r))
    ensures forall j :: from <= j <= |s| && (r == -1 || j < r) ==> !OccursAt(s, pat, j)
    decreases |s| - from
  {
    if OccursAt(s, pat, from) then from
    else if from == |s| then -1
    else IndexOf(s, pat, from + 1)
  }

  /** The replacement holds no `$`, so no substitution pattern can occur in it. */
  predicate NoDollar(rep: string) {
    forall k :: 0 <= k < |rep| ==> rep[k] != '$'
  }

  /**
   * GetSubstitution of ECMAScript for a match without capture groups: in the
   * replacement, `$$` stands for `$`, `$&` for the matched text, `` $` `` for
   * the text before the match and `$'` for the text after it; every other
   * character, including a `$` that starts none of these (`$1`, `$<`), is
   * copied as it is.
   */
  function Substitution(rep: string, matched: string, before: string, after: string): (r: string)
    ensures NoDollar(rep) ==> r == rep
    decreases |rep|
  {
    if rep == [] then []
    else if rep[0] == '$' && |rep| >= 2 && rep[1] == '$' then "$" + Substitution(rep[2..], matched, before, after)
    else if rep[0] == '$' && |rep| >= 2 && rep[1] == '&' then matched + Substitution(rep[2..], matched, before, after)
    else if rep[0] == '$' && |rep| >= 2 && rep[1] == '`' then before + Substitution(rep[2..], matched, before, after)
    else if rep[0] == '$' && |rep| >= 2 && rep[1] == '\'' then after + Substitution(rep[2..], matched, before, after)
    else [rep[0]] + Substitution(rep[1..], matched, before, after)
  }

  /** The four patterns on their own, and a `$` that starts none of them. */
  lemma SubstitutionPatterns(matched: string, before: string, after: string)
    ensures Substitution("$$", matched, before, after) == "$"
    ensures Substitution("$&", matched, before, after) == matched
    ensures Substitution("$`", matched, before, after) == before
    ensures Substitution("$'", matched, before, after) == after
    ensures Substitution("$1", matched, before, after) == "$1"
  {
    assert "$$"[2..] == [] && "$&"[2..] == [] && "$`"[2..] == [] && "$'"[2..] == [];
    assert "$1"[1..] == "1" && "1"[1..] == [];
  }

  /**
   * `s.replace(pat, rep)` with a string pattern: only the first occurrence is
   * replaced, by `rep` with its substitution patterns expanded.
   */
  function ReplaceFirst(s: string, pat: string, rep: string): (r: string)
    ensures (forall j :: 0 <= j <= |s| ==> !OccursAt(s, pat, j)) ==> r == s
    ensures forall i :: 0 <= i <= |s| && OccursAt(s, pat, i) && (forall j :: 0 <= j < i ==> !OccursAt(s, pat, j))
              ==> r == s[..i] + Substitution(rep, pat, s[..i], s[i + |pat|..]) + s[i + |pat|..]
  {
    var i := IndexOf(s, pat, 0);
    if i == -1 then s else s[..i] + Substitution(rep, pat, s[..i], s[i + |pat|..]) + s[i + |pat|..]
  }

  /** The characters `String.prototype.trim` removes: WhiteSpace and LineTerminator of ECMAScript. */
  predicate IsWhitespace(c: char) {
    c == '\t' || c == '\n' || c == '\U{B}' || c == '\U{C}' || c == '\r' || c == ' ' ||
    c == '\U{A0}' || c == '\U{1680}' || ('\U{2000}' <= c <= '\U{200A}') ||
    c == '\U{2028}' || c == '\U{2029}' || c == '\U{202F}' || c == '\U{205F}' ||
    c == '\U{3000}' || c == '\U{FEFF}'
  }

  function TrimStart(s: string): (r: string)
    ensures |r| <= |s| && r == s[|s| - |r|..]
    ensures forall k :: 0 <= k < |s| - |r| ==> IsWhitespace(s[k])
    ensures r != [] ==> !IsWhitespace(r[0])
  {
    if s != [] && IsWhitespace(s[0]) then TrimStart(s[1..]) else s
  }

  function TrimEnd(s: string): (r: string)
    ensures |r| <= |s| && r == s[..|r|]
    ensures forall k :: |r| <= k < |s| ==> IsWhitespace(s[k])
    ensures r != [] ==> !IsWhitespace(r[|r| - 1])
  {
    if s != [] && IsWhitespace(s[|s| - 1]) then TrimEnd(s[..|s| - 1]) else s
  }

  /** `r` is the piece of `s` at `a`, with only whitespace before and after it. */
  predicate Between(s: string, r: string, a: nat) {
    a + |r| <= |s| && r == s[a..a + |r|]
    && (forall k :: 0 <= k < a ==> IsWhitespace(s[k]))
    && (forall k :: a + |r| <= k < |s| ==> IsWhitespace(s[k]))
  }

  /** `s.trim()`: the text between the leading and the trailing whitespace. */
  function Trim(s: string): (r: string)
    ensures |r| <= |s|
    ensures r == [] <==> forall k :: 0 <= k < |s| ==> IsWhitespace(s[k])
    ensures r != [] ==> !IsWhitespace(r[0]) && !IsWhitespace(r[|r| - 1])
  {
    var t := TrimStart(s);
    TrimEndOfSuffix(s, t);
    TrimEnd(t)
  }

  /** What `trim` returns is the text between the leading and the trailing whitespace. */
  lemma TrimIsBetween(s: string)
    ensures exists a :: Between(s, Trim(s), a)
  {
    var t := TrimStart(s);
    TrimEndOfSuffix(s, t);
    assert Between(s, Trim(s), |s| - |t|);
  }

  lemma TrimEndOfSuffix(s: string, t: string)
    requires |t| <= |s| && t == s[|s| - |t|..]
    requires forall k :: 0 <= k < |s| - |t| ==> IsWhitespace(s[k])
    ensures TrimEnd(t) == s[|s| - |t|..|s| - |t| + |TrimEnd(t)|]
    ensures forall k :: |s| - |t| + |TrimEnd(t)| <= k < |s| ==> IsWhitespace(s[k])
    ensures TrimEnd(t) == [] ==> forall k :: 0 <= k < |s| ==> IsWhitespace(s[k])
    ensures Between(s, TrimEnd(t), |s| - |t|)
  {
    var r := TrimEnd(t);
    forall k | |s| - |t| + |r| <= k < |s| ensures IsWhitespace(s[k]) {
      assert s[k] == t[k - (|s| - |t|)];
    }
    if r == [] {
      forall k | 0 <= k < |s| ensures IsWhitespace(s[k]) {
        if k >= |s| - |t| { assert s[k] == t[k - (|s| - |t|)]; }
      }
    }
  }

  /** `s.trim() === ""`: the text is empty or whitespace only. */
  predicate IsBlank(s: string) {
    Trim(s) == []
  }

  /** The text holds no carriage return. */
  predicate HasNoCr(s: string) {
    forall k :: 0 <= k < |s| ==> s[k] != '\r'
  }

  /** `s.replace(/\r\n|\r/g, "\n")`: every CRLF pair and every lone CR becomes LF. */
  function NormalizeLineEndings(s: string): (r: string)
    ensures HasNoCr(r)
    ensures |r| <= |s|
  {
    if s == [] then []
    else if s[0] == '\r' then
      if |s| > 1 && s[1] == '\n' then "\n" + NormalizeLineEndings(s[2..])
      else "\n" + NormalizeLineEndings(s[1..])
    else [s[0]] + NormalizeLineEndings(s[1..])
  }

  /** Text without a CR normalises to itself. */
  lemma {:induction false} NormalizeWithoutCr(s: string)
    requires HasNoCr(s)
    ensures NormalizeLineEndings(s) == s
  {
    if s != [] {
      NormalizeWithoutCr(s[1..]);
      assert s == [s[0]] + s[1..];
    }
  }

  /** Normalising twice changes nothing. */
  lemma NormalizeIdempotent(s: string)
    ensures NormalizeLineEndings(NormalizeLineEndings(s)) == NormalizeLineEndings(s)
  {
    NormalizeWithoutCr(NormalizeLineEndings(s));
  }

  /** Text without a CR can be split anywhere before normalising: no CRLF pair is torn apart. */
  lemma {:induction false} NormalizeAppendNoCr(a: string, b: string)
    requires HasNoCr(a)
    ensures NormalizeLineEndings(a + b) == a + NormalizeLineEndings(b)
  {
    if a != [] {
      var c := a + b;
      assert c[0] == a[0] && c[1..] == a[1..] + b;
      NormalizeAppendNoCr(a[1..], b);
      assert NormalizeLineEndings(c) == [a[0]] + NormalizeLineEndings(c[1..]);
      assert a == [a[0]] + a[1..];
    } else {
      assert a + b == b;
    }
  }
}
