/**
 * `replaceWidth` (viewport-min-width.js:67-72): `content.replace(/width *= *.*?,/, "width=" + n)`.
 *
 * The regular expression is modelled twice: as the backtracking matcher a
 * JavaScript engine runs (`MatchAt`, `Search`), and as a declarative statement
 * of which text that matcher accepts (`IsMatch`).  The lemmas connect the two.
 * `.` matches anything but a line terminator, so the lazy `.*?,` stops at the
 * first comma and fails at a line terminator or the end of the string.
 */
module WidthPattern {
  import opened Wrappers
  import opened JsString
  import opened JsNumber

  /** No comma and no line terminator in `s[from..to]`: the text `.*?` can skip before `,`. */
  ghost predicate Skippable(s: string, from: int, to: int)
    requires 0 <= from && to <= |s|
  {
    forall k :: from <= k < to ==> s[k] != ',' && !IsLineTerminator(s[k])
  }

  /**
   * `s[i..j]` is the text the pattern matches when the engine tries position
   * `i`: the literal `width`, spaces, `=` at position `a`, then the shortest run
   * without line terminators that ends in a comma.  The spaces after `=` are part
   * of that run, since neither pattern piece can stop on a space.
   */
  ghost predicate IsMatchVia(s: string, i: int, a: int, j: int) {
    && 0 <= i && i + 5 <= a && a + 1 < j && j <= |s|
    && s[i..i + 5] == "width"
    && (forall k :: i + 5 <= k < a ==> s[k] == ' ')
    && s[a] == '='
    && Skippable(s, a + 1, j - 1)
    && s[j - 1] == ','
  }

  ghost predicate IsMatch(s: string, i: int, j: int) {
    exists a :: IsMatchVia(s, i, a, j)
  }

  /** `s[i..j]` is the match `String.prototype.replace` uses: no match starts further left. */
  ghost predicate IsLeftmostMatch(s: string, i: int, j: int) {
    IsMatch(s, i, j) && forall p, q :: 0 <= p < i ==> !IsMatch(s, p, q)
  }

  /** ` *` at position `k`: the end of the run of spaces starting there. */
  function SpacesEnd(s: string, k: nat): (e: nat)
    requires k <= |s|
    ensures k <= e <= |s|
    ensures forall j :: k <= j < e ==> s[j] == ' '
    ensures e < |s| ==> s[e] != ' '
    decreases |s| - k
  {
    if k < |s| && s[k] == ' ' then SpacesEnd(s, k + 1) else k
  }

  /** `.*?,` at position `k`: one past the first comma, unless a line terminator or the end comes first. */
  function LazyToComma(s: string, k: nat): (r: Option<nat>)
    requires k <= |s|
    ensures r.Some? ==> k < r.value <= |s| && s[r.value - 1] == ',' && Skippable(s, k, r.value - 1)
    ensures r.None? ==> forall c :: k <= c < |s| && s[c] == ',' ==> !Skippable(s, k, c)
    decreases |s| - k
  {
    if k == |s| || IsLineTerminator(s[k]) then None
    else if s[k] == ',' then Some(k + 1)
    else LazyToComma(s, k + 1)
  }

  /** The engine's attempt at position `i`: the end of the match starting there, if any. */
  function MatchAt(s: string, i: nat): (r: Option<nat>)
    requires i <= |s|
    ensures r.Some? ==> IsMatch(s, i, r.value)
    ensures r.None? ==> forall j :: !IsMatch(s, i, j)
  {
    if i + 5 <= |s| && s[i..i + 5] == "width" then
      var a := SpacesEnd(s, i + 5);
      if a < |s| && s[a] == '=' then
        var r := LazyToComma(s, a + 1);
        assert r.Some? ==> IsMatchVia(s, i, a, r.value);
        r
      else None
    else None
  }

  /** The engine's scan for the leftmost match, trying positions `i`, `i + 1`, ... in turn. */
  function Search(s: string, i: nat): (r: Option<(nat, nat)>)
    requires i <= |s|
    ensures r.Some? ==> i <= r.value.0 && IsMatch(s, r.value.0, r.value.1)
    ensures r.Some? ==> forall p, q :: i <= p < r.value.0 ==> !IsMatch(s, p, q)
    ensures r.None? ==> forall p, q :: i <= p ==> !IsMatch(s, p, q)
    decreases |s| - i
  {
    match MatchAt(s, i)
    case Some(j) => Some((i, j))
    case None => if i == |s| then None else Search(s, i + 1)
  }

  /** `replaceWidth(content, minWidth)`: the leftmost match becomes `"width=" + minWidth`. */
  function ReplaceWidth(content: string, minWidth: int): string
  {
    match Search(content, 0)
    case None => content
    case Some((i, j)) => content[..i] + "width=" + IntToString(minWidth) + content[j..]
  }

  /** At most one match starts at a given position: the lazy quantifier fixes its end. */
  lemma {:induction false} MatchEndUnique(s: string, i: int, j1: int, j2: int)
    requires IsMatch(s, i, j1) && IsMatch(s, i, j2)
    ensures j1 == j2
  {
    var a1 :| IsMatchVia(s, i, a1, j1);
    var a2 :| IsMatchVia(s, i, a2, j2);
    assert s[a1] == '=' && s[a2] == '=';
    assert a1 == a2;
    assert s[j1 - 1] == ',' && s[j2 - 1] == ',';
  }

  /** The engine finds exactly the matches the declarative pattern describes, at each position. */
  lemma {:induction false} MatchAtExact(s: string, i: nat, j: int)
    requires i <= |s|
    ensures MatchAt(s, i) == Some(j) <==> IsMatch(s, i, j)
  {
    if IsMatch(s, i, j) {
      var r := MatchAt(s, i);
      MatchEndUnique(s, i, r.value, j);
    }
  }

  /** `Search` from the start returns the leftmost match, and nothing when there is no match. */
  lemma {:induction false} SearchLeftmost(s: string, i: int, j: int)
    ensures Search(s, 0) == Some((i, j)) <==> IsLeftmostMatch(s, i, j)
  {
    var r := Search(s, 0);
    if IsLeftmostMatch(s, i, j) {
      assert r.Some?;
      assert r.value.0 == i;
      MatchEndUnique(s, i, r.value.1, j);
    }
  }

  /**
   * `replaceWidth` splices `"width=" + minWidth` over the leftmost match and
   * keeps the text before and after it; with no match the content is returned
   * unchanged.  The trailing comma the match consumed is not put back.
   */
  lemma {:induction false} ReplaceWidthSpec(content: string, minWidth: int)
    ensures (forall p, q :: !IsMatch(content, p, q)) ==> ReplaceWidth(content, minWidth) == content
    ensures forall i, j :: IsLeftmostMatch(content, i, j) ==>
      ReplaceWidth(content, minWidth) == content[..i] + "width=" + IntToString(minWidth) + content[j..]
  {
    forall i, j | IsLeftmostMatch(content, i, j)
      ensures ReplaceWidth(content, minWidth) == content[..i] + "width=" + IntToString(minWidth) + content[j..]
    {
      SearchLeftmost(content, i, j);
    }
    if forall p, q :: !IsMatch(content, p, q) {
      assert Search(content, 0).None?;
    }
  }

  /** A replacement removes exactly one comma from the content: the one closing the match. */
  lemma {:induction false} ReplaceWidthDropsOneComma(content: string, minWidth: int, i: int, j: int)
    requires IsLeftmostMatch(content, i, j)
    ensures multiset(ReplaceWidth(content, minWidth))[','] + 1 == multiset(content)[',']
  {
    SearchLeftmost(content, i, j);
    var replacement := "width=" + IntToString(minWidth);
    MatchHasOneComma(content, i, j);
    ReplacementHasNoComma(minWidth);
    SpliceAround(content, i, j);
    CommaCountSplice(content[..i], content[i..j - 1], replacement, content[j..]);
  }

  /** The text `"width=" + n` never holds a comma. */
  lemma {:induction false} ReplacementHasNoComma(n: int)
    ensures ',' !in "width=" + IntToString(n)
  {
    var r := IntToString(n);
    assert forall k :: 0 <= k < |r| ==> r[k] != ',';
  }

  /** A string is the text before `i`, the text from `i` to `j - 1`, the character at `j - 1`, and the rest. */
  lemma {:induction false} SpliceAround(s: string, i: int, j: int)
    requires 0 <= i < j <= |s|
    ensures s == s[..i] + (s[i..j - 1] + [s[j - 1]]) + s[j..]
  {
    assert s[i..j - 1] + [s[j - 1]] == s[i..j];
  }

  /** Replacing comma-free text followed by a comma with comma-free text loses one comma. */
  lemma {:induction false} CommaCountSplice(pre: string, matched: string, replacement: string, post: string)
    requires ',' !in matched && ',' !in replacement
    ensures multiset(pre + replacement + post)[','] + 1 == multiset(pre + (matched + [',']) + post)[',']
  {
    assert multiset(matched + [','])[','] == 1;
    assert multiset(replacement)[','] == 0;
  }

  /** The matched text has a single comma, its last character. */
  lemma {:induction false} MatchHasOneComma(s: string, i: int, j: int)
    requires IsMatch(s, i, j)
    ensures ',' !in s[i..j - 1] && s[j - 1] == ','
  {
    var a :| IsMatchVia(s, i, a, j);
    forall k | i <= k < j - 1
      ensures s[k] != ','
    {
      if k < i + 5 {
        assert s[k] == s[i..i + 5][k - i];
      }
    }
  }
}
