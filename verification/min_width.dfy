/**
 * `getMinWidth` (viewport-min-width.js:50-65): read the `min-width` directive
 * out of the viewport tag's `content` attribute.  The source throws a string on
 * failure; here the failure is the `Failure` side of a `Result`.
 */
module MinWidth {
  import opened Wrappers
  import opened JsString
  import opened JsNumber

  /**
   * Why no minimum width could be read: the value is not a number (line 61), the
   * directive is absent (line 64), or the tag has no `content` attribute, where
   * `getAttribute` returns null and `content.split` raises a TypeError (line 52).
   */
  datatype ConfigError = NonNumeric | NoMinWidth | ContentMissing

  /** The key of a comma-separated directive: `part.trim().split("=")[0]`. */
  function Key(part: string): string {
    Split(Trim(part), '=')[0]
  }

  /**
   * The text handed to `parseInt`: `pair[1]` of `part.trim().split("=")`.
   * Without an `=` that is `undefined`, which `parseInt` converts to the text
   * `"undefined"` before reading it.
   */
  function ValueText(part: string): string {
    var pair := Split(Trim(part), '=');
    if |pair| >= 2 then pair[1] else "undefined"
  }

  /** Lines 57-61: the directive's value as a number, or the non-numeric error. */
  function ReadDirective(part: string): Result<int, ConfigError> {
    match ParseInt(ValueText(part))
    case Some(v) => Success(v)
    case None => Failure(NonNumeric)
  }

  /** No directive in `parts[from..to]` is keyed exactly `min-width`. */
  ghost predicate NoMinWidthIn(parts: seq<string>, from: int, to: int)
    requires 0 <= from && to <= |parts|
  {
    forall m :: from <= m < to ==> Key(parts[m]) != "min-width"
  }

  /** `parts[k]` is the first directive keyed exactly `min-width`. */
  ghost predicate IsFirstMinWidth(parts: seq<string>, k: int) {
    0 <= k < |parts| && Key(parts[k]) == "min-width" && NoMinWidthIn(parts, 0, k)
  }

  /** The loop of lines 53-56, from index `i` on: the position of the first `min-width` directive. */
  function FindMinWidth(parts: seq<string>, i: nat): (r: Option<nat>)
    requires i <= |parts|
    ensures r.Some? ==> i <= r.value < |parts| && Key(parts[r.value]) == "min-width"
    ensures r.Some? ==> NoMinWidthIn(parts, i, r.value)
    ensures r.None? ==> NoMinWidthIn(parts, i, |parts|)
    decreases |parts| - i
  {
    if i == |parts| then None
    else if Key(parts[i]) == "min-width" then Some(i)
    else FindMinWidth(parts, i + 1)
  }

  /** `getMinWidth` on the text of a `content` attribute (lines 52-64). */
  function ParseMinWidth(content: string): Result<int, ConfigError> {
    var parts := Split(content, ',');
    match FindMinWidth(parts, 0)
    case None => Failure(NoMinWidth)
    case Some(k) => ReadDirective(parts[k])
  }

  /** `getMinWidth(tag)`: `None` is a tag whose `getAttribute("content")` is null. */
  function GetMinWidth(content: Option<string>): Result<int, ConfigError> {
    match content
    case None => Failure(ContentMissing)
    case Some(c) => ParseMinWidth(c)
  }

  /**
   * `getMinWidth` is decided by the first directive keyed `min-width`: its value
   * or the non-numeric error, whatever later directives hold; with no such
   * directive it fails with the not-found error.
   */
  lemma {:induction false} ParseMinWidthSpec(content: string)
    ensures forall k :: IsFirstMinWidth(Split(content, ','), k) ==>
      ParseMinWidth(content) == ReadDirective(Split(content, ',')[k])
    ensures ParseMinWidth(content) == Failure(NoMinWidth) <==>
      NoMinWidthIn(Split(content, ','), 0, |Split(content, ',')|)
  {
  }

  /**
   * The key match is exact and case-sensitive, and only the whole directive is
   * trimmed: a directive is keyed `min-width` exactly when its trimmed text is
   * `min-width` or starts with `min-width=`.
   */
  lemma {:induction false} KeyIsMinWidth(part: string)
    ensures Key(part) == "min-width" <==>
      Trim(part) == "min-width" || (|Trim(part)| > 9 && Trim(part)[..10] == "min-width=")
  {
    var t := Trim(part);
    var p0 := Split(t, '=')[0];
    SplitSpec(t, '=');
    if Key(part) == "min-width" {
      assert p0 == t[..9];
      if |t| > 9 {
        assert t[9] == '=';
        assert t[..10] == p0 + "=";
      }
    }
    if t == "min-width" {
      assert '=' !in t;
      assert p0 == t;
    } else if |t| > 9 && t[..10] == "min-width=" {
      assert forall k :: 0 <= k < 9 ==> t[k] != '=' by {
        forall k | 0 <= k < 9 ensures t[k] != '=' {
          assert t[k] == t[..10][k];
        }
      }
      assert t[9] == '=';
      assert |p0| == 9;
      assert p0 == t[..9] == t[..10][..9];
    }
  }

  /** A first `min-width` directive without `=` reads `parseInt(undefined)`, which is NaN. */
  lemma {:induction false} BareKeyIsNonNumeric(part: string)
    requires Trim(part) == "min-width"
    ensures Key(part) == "min-width"
    ensures ReadDirective(part) == Failure(NonNumeric)
  {
    KeyIsMinWidth(part);
    assert '=' !in Trim(part);
    SplitWithoutSeparator(Trim(part), '=');
    ParseIntNaN("undefined");
  }

  /**
   * For a directive written as white space, a key, `=`, a value and white
   * space, the key is the text before the `=` and `parseInt` is handed the
   * value up to its own first `=`.
   */
  lemma {:induction false} DirectivePartsAround(lead: string, key: string, value: string, trail: string)
    requires AllWhiteSpace(lead) && AllWhiteSpace(trail)
    requires |key| > 0 && '=' !in key && !IsStrWhiteSpaceChar(key[0])
    requires |value| == 0 || !IsStrWhiteSpaceChar(value[|value| - 1])
    ensures Key(lead + key + "=" + value + trail) == key
    ensures ValueText(lead + key + "=" + value + trail) == Split(value, '=')[0]
  {
    var core := key + "=" + value;
    assert lead + key + "=" + value + trail == lead + core + trail;
    assert core[0] == key[0];
    assert core[|core| - 1] == if |value| == 0 then '=' else value[|value| - 1];
    TrimExact(lead, core, trail);
    assert core == key + ['='] + value;
    SplitAfterPiece(key, '=', value);
  }

  /** `DirectivePartsAround` with nothing after the value. */
  lemma {:induction false} DirectiveParts(lead: string, key: string, value: string)
    requires AllWhiteSpace(lead)
    requires |key| > 0 && '=' !in key && !IsStrWhiteSpaceChar(key[0])
    requires |value| == 0 || !IsStrWhiteSpaceChar(value[|value| - 1])
    ensures Key(lead + key + "=" + value) == key
    ensures ValueText(lead + key + "=" + value) == Split(value, '=')[0]
  {
    DirectivePartsAround(lead, key, value, "");
    assert lead + key + "=" + value + "" == lead + key + "=" + value;
  }

  /**
   * Initialization reads back any integer written as `min-width=N` in any
   * position, with any white space around it, provided no earlier directive
   * is keyed `min-width`.
   */
  lemma {:induction false} MinWidthRoundTrip(parts: seq<string>, k: nat, lead: string, n: int, trail: string)
    requires k < |parts|
    requires forall m :: 0 <= m < |parts| ==> ',' !in parts[m]
    requires NoMinWidthIn(parts, 0, k)
    requires AllWhiteSpace(lead) && AllWhiteSpace(trail)
    requires parts[k] == lead + "min-width=" + IntToString(n) + trail
    ensures ParseMinWidth(Join(parts, ',')) == Success(n)
  {
    SplitJoin(parts, ',');
    DirectiveRoundTrip(lead, n, trail);
    assert IsFirstMinWidth(parts, k);
    ParseMinWidthSpec(Join(parts, ','));
  }

  /** The directive `min-width=N`, with any white space around it, is keyed `min-width` and reads back as `N`. */
  lemma {:induction false} DirectiveRoundTrip(lead: string, n: int, trail: string)
    requires AllWhiteSpace(lead) && AllWhiteSpace(trail)
    ensures Key(lead + "min-width=" + IntToString(n) + trail) == "min-width"
    ensures ReadDirective(lead + "min-width=" + IntToString(n) + trail) == Success(n)
  {
    var w := IntToString(n);
    assert lead + "min-width=" + w + trail == lead + "min-width" + "=" + w + trail;
    assert w[|w| - 1] == '-' || IsDecimalDigit(w[|w| - 1]);
    DirectivePartsAround(lead, "min-width", w, trail);
    NumberValue(n);
  }

  /** A directive whose value is the rendering of `n` is keyed by the text before `=` and reads back as `n`. */
  lemma {:induction false} NumberDirective(lead: string, key: string, n: int)
    requires AllWhiteSpace(lead)
    requires |key| > 0 && '=' !in key && !IsStrWhiteSpaceChar(key[0])
    ensures Key(lead + key + "=" + IntToString(n)) == key
    ensures ReadDirective(lead + key + "=" + IntToString(n)) == Success(n)
  {
    var w := IntToString(n);
    DirectiveParts(lead, key, w);
    NumberValue(n);
  }

  /** The rendering of `n`, as a directive value, reads back as `n`. */
  lemma {:induction false} NumberValue(n: int)
    ensures ParseInt(Split(IntToString(n), '=')[0]) == Some(n)
  {
    var w := IntToString(n);
    SplitWithoutSeparator(w, '=');
    ParseIntToString(n, "");
    assert w + "" == w;
  }
}
