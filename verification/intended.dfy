/**
 * The rewrite the polyfill's header comment (viewport-min-width.js:2-4) evidently
 * intends and `replaceWidth` (lines 67-72) falls short of: scale the viewport
 * to the minimum by setting the value of the `width` directive, and otherwise
 * leave the tag alone.  Read that way, only the `width` value changes; the
 * other directives, the commas and the order stay.  Directives are found the
 * way `getMinWidth` finds them (split on commas, trim, split on `=`); the
 * directive's name is its key with white space trimmed, so
 * `width = device-width` is a `width` directive, as the regular expression's
 * optional spaces intend.
 */
module Intended {
  import opened Wrappers
  import opened JsString
  import opened JsNumber
  import opened WidthPattern
  import opened MinWidth
  import opened Viewport

  /** The name of a directive: its key without surrounding white space. */
  function Name(part: string): string {
    Trim(Key(part))
  }

  /** No directive in `parts[from..to]` is named `width`. */
  ghost predicate NoWidthIn(parts: seq<string>, from: int, to: int)
    requires 0 <= from && to <= |parts|
  {
    forall m :: from <= m < to ==> Name(parts[m]) != "width"
  }

  /** The position of the first directive named `width` at or after `i`. */
  function FindWidth(parts: seq<string>, i: nat): (r: Option<nat>)
    requires i <= |parts|
    ensures r.Some? ==> i <= r.value < |parts| && Name(parts[r.value]) == "width"
    ensures r.Some? ==> NoWidthIn(parts, i, r.value)
    ensures r.None? ==> NoWidthIn(parts, i, |parts|)
    decreases |parts| - i
  {
    if i == |parts| then None
    else if Name(parts[i]) == "width" then Some(i)
    else FindWidth(parts, i + 1)
  }

  /** The directive that replaces `part`: its leading white space, then `width=N`. */
  function WidthDirective(part: string, n: int): string {
    LeadingWhiteSpace(part) + "width=" + IntToString(n)
  }

  /** The corrected `replaceWidth`: only the first `width` directive's text changes. */
  function RewriteWidthDirective(content: string, n: int): string {
    var parts := Split(content, ',');
    SplitSpec(content, ',');
    match FindWidth(parts, 0)
    case None => content
    case Some(k) => Join(parts[k := WidthDirective(parts[k], n)], ',')
  }

  /** The corrected `updateMetaViewport`: the same decision, with the corrected rewrite. */
  function UpdateIntended(p: Page, screenWidth: nat): Result<Outcome, Fault> {
    UpdateWith(p, screenWidth, RewriteWidthDirective)
  }

  /** Leading white space of a comma-free directive is comma-free and all white space. */
  lemma {:induction false} LeadingWhiteSpaceFacts(part: string)
    ensures AllWhiteSpace(LeadingWhiteSpace(part))
    ensures ',' !in part ==> ',' !in LeadingWhiteSpace(part)
  {
    var w := LeadingWhiteSpace(part);
    TrimStartSpec(part);
    assert w == part[..|w|];
  }

  /**
   * The replacement directive is comma-free, is named `width` under both the
   * corrected and the source's key rule, reads back as `n`, and is its own
   * replacement.
   */
  lemma {:induction false} WidthDirectiveFacts(part: string, n: int)
    requires ',' !in part
    ensures ',' !in WidthDirective(part, n)
    ensures Key(WidthDirective(part, n)) == "width"
    ensures Name(WidthDirective(part, n)) == "width"
    ensures ReadDirective(WidthDirective(part, n)) == Success(n)
    ensures WidthDirective(WidthDirective(part, n), n) == WidthDirective(part, n)
  {
    var lead := LeadingWhiteSpace(part);
    LeadingWhiteSpaceFacts(part);
    ReplacementHasNoComma(n);
    WidthDirectiveReads(lead, n);
    WidthDirectiveLead(lead, n);
  }

  /** `width=N` after white space is keyed and named `width` and reads back as `N`. */
  lemma {:induction false} WidthDirectiveReads(lead: string, n: int)
    requires AllWhiteSpace(lead)
    ensures Key(lead + "width=" + IntToString(n)) == "width"
    ensures Name(lead + "width=" + IntToString(n)) == "width"
    ensures ReadDirective(lead + "width=" + IntToString(n)) == Success(n)
  {
    assert lead + "width=" + IntToString(n) == lead + "width" + "=" + IntToString(n);
    NumberDirective(lead, "width", n);
    WidthIsTrimmed();
  }

  lemma WidthIsTrimmed()
    ensures Trim("width") == "width"
  {
    assert "width" == "" + "width" + "";
    TrimExact("", "width", "");
  }

  /** The leading white space of `width=N` after white space is that white space. */
  lemma {:induction false} WidthDirectiveLead(lead: string, n: int)
    requires AllWhiteSpace(lead)
    ensures LeadingWhiteSpace(lead + "width=" + IntToString(n)) == lead
  {
    var core := "width=" + IntToString(n);
    assert lead + "width=" + IntToString(n) == lead + core;
    LeadingWhiteSpaceOf(lead, core);
  }

  /** A directive named `width` is never keyed `min-width`. */
  lemma {:induction false} WidthIsNotMinWidth(part: string)
    requires Name(part) == "width"
    ensures Key(part) != "min-width"
  {
    assert "min-width" == "" + "min-width" + "";
    TrimExact("", "min-width", "");
  }

  /** The first `width` directive is the one `FindWidth` returns. */
  lemma {:induction false} FindWidthFirst(parts: seq<string>, k: nat)
    requires k < |parts| && Name(parts[k]) == "width" && NoWidthIn(parts, 0, k)
    ensures FindWidth(parts, 0) == Some(k)
  {
    var r := FindWidth(parts, 0);
    assert r.Some?;
    assert Name(parts[r.value]) == "width";
  }

  /**
   * The corrected rewrite keeps the number of directives and every directive
   * except the first one named `width`, which becomes `width=N` after its own
   * leading white space; with no `width` directive the content is unchanged.
   */
  lemma {:induction false} RewriteKeepsOtherDirectives(content: string, n: int)
    ensures var parts := Split(content, ',');
      var out := Split(RewriteWidthDirective(content, n), ',');
      && |out| == |parts|
      && (NoWidthIn(parts, 0, |parts|) ==> RewriteWidthDirective(content, n) == content)
      && forall k :: 0 <= k < |parts| && Name(parts[k]) == "width" && NoWidthIn(parts, 0, k) ==>
           && out[k] == WidthDirective(parts[k], n)
           && ReadDirective(out[k]) == Success(n)
           && forall m :: 0 <= m < |parts| && m != k ==> out[m] == parts[m]
  {
    var parts := Split(content, ',');
    SplitSpec(content, ',');
    match FindWidth(parts, 0)
    case None =>
    case Some(k) =>
      var parts' := parts[k := WidthDirective(parts[k], n)];
      WidthDirectiveFacts(parts[k], n);
      SplitJoin(parts', ',');
      forall k' | 0 <= k' < |parts| && Name(parts[k']) == "width" && NoWidthIn(parts, 0, k')
        ensures k' == k
      {
        FindWidthFirst(parts, k');
      }
  }

  /** `min-width` directives are found at the same places with the same texts in both part lists. */
  lemma {:induction false} FindMinWidthAgrees(parts: seq<string>, parts': seq<string>, i: nat)
    requires |parts| == |parts'| && i <= |parts|
    requires forall m :: 0 <= m < |parts| ==>
      (Key(parts[m]) == "min-width" <==> Key(parts'[m]) == "min-width")
    requires forall m :: 0 <= m < |parts| && Key(parts[m]) == "min-width" ==> parts[m] == parts'[m]
    ensures FindMinWidth(parts, i) == FindMinWidth(parts', i)
    decreases |parts| - i
  {
    if i < |parts| {
      FindMinWidthAgrees(parts, parts', i + 1);
    }
  }

  /** The corrected rewrite leaves the `min-width` directive, and so `getMinWidth`, untouched. */
  lemma {:induction false} RewritePreservesMinWidth(content: string, n: int)
    ensures ParseMinWidth(RewriteWidthDirective(content, n)) == ParseMinWidth(content)
  {
    var parts := Split(content, ',');
    SplitSpec(content, ',');
    match FindWidth(parts, 0)
    case None =>
    case Some(k) =>
      var d := WidthDirective(parts[k], n);
      WidthDirectiveFacts(parts[k], n);
      WidthIsNotMinWidth(parts[k]);
      ReplaceNonMinWidth(parts, k, d);
      JoinSplit(content, ',');
  }

  /** Replacing a directive not keyed `min-width` by another one does not move the first `min-width` directive. */
  lemma {:induction false} ReplaceNonMinWidth(parts: seq<string>, k: nat, d: string)
    requires k < |parts|
    requires forall m :: 0 <= m < |parts| ==> ',' !in parts[m]
    requires ',' !in d
    requires Key(parts[k]) != "min-width" && Key(d) != "min-width"
    ensures ParseMinWidth(Join(parts[k := d], ',')) == ParseMinWidth(Join(parts, ','))
  {
    var parts' := parts[k := d];
    SplitJoin(parts', ',');
    SplitJoin(parts, ',');
    FindMinWidthAgrees(parts, parts', 0);
  }

  /** Rewriting an already rewritten content changes nothing. */
  lemma {:induction false} RewriteIdempotent(content: string, n: int)
    ensures RewriteWidthDirective(RewriteWidthDirective(content, n), n) == RewriteWidthDirective(content, n)
  {
    var parts := Split(content, ',');
    SplitSpec(content, ',');
    match FindWidth(parts, 0)
    case None =>
    case Some(k) =>
      var d := WidthDirective(parts[k], n);
      var parts' := parts[k := d];
      WidthDirectiveFacts(parts[k], n);
      SplitJoin(parts', ',');
      assert NoWidthIn(parts', 0, k) by {
        forall m | 0 <= m < k ensures Name(parts'[m]) != "width" {
          assert parts'[m] == parts[m];
        }
      }
      FindWidthFirst(parts', k);
      assert parts'[k := WidthDirective(parts'[k], n)] == parts';
  }

  /**
   * With the corrected rewrite a repeated update is a no-op: two updates with
   * the same screen width leave the page as one does.
   */
  lemma {:induction false} UpdateIntendedIdempotent(p: Page, screenWidth: nat)
    requires Reachable(p)
    ensures UpdateIntended(p, screenWidth).Success?
    ensures UpdateIntended(UpdateIntended(p, screenWidth).value.page, screenWidth)
         == UpdateIntended(p, screenWidth)
  {
    if Below(screenWidth, p.minWidth) {
      RewriteIdempotent(p.viewport.value.content.value, p.minWidth.value);
    }
  }
}
