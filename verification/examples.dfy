/**
 * Concrete inputs that show how the source behaves, as written, on the
 * directive strings its header comment has in mind.  Contents are written as
 * the comma-joined list of their directives.
 */
module Examples {
  import opened Wrappers
  import opened JsString
  import opened JsNumber
  import opened WidthPattern
  import opened MinWidth
  import opened Viewport
  import opened Intended

  lemma FourHundred()
    ensures IntToString(400) == "400"
  {
  }

  /** `replaceWidth` on a leftmost match `s[i..j]`, spelled out. */
  lemma {:induction false} ReplaceAt(s: string, i: nat, j: nat, n: int)
    requires IsLeftmostMatch(s, i, j)
    ensures ReplaceWidth(s, n) == s[..i] + "width=" + IntToString(n) + s[j..]
  {
    SearchLeftmost(s, i, j);
  }

  /** `"" + x` is `x`: a bridge between directives with and without leading white space. */
  lemma EmptyLeft(x: string)
    ensures "" + x == x
  {
  }

  /** A position holding no `w`, or followed by no comma, starts no match. */
  lemma {:induction false} NoMatchFrom(s: string, p: int)
    requires 0 <= p < |s|
    requires s[p] != 'w' || forall k :: p <= k < |s| ==> s[k] != ','
    ensures forall q :: !IsMatch(s, p, q)
  {
    if p + 5 <= |s| {
      assert s[p..p + 5][0] == s[p];
    }
  }

  /** `Trim` leaves a key with no surrounding white space as it is. */
  lemma TrimKey(key: string)
    requires |key| > 0 && !IsStrWhiteSpaceChar(key[0]) && !IsStrWhiteSpaceChar(key[|key| - 1])
    ensures Trim(key) == key
  {
    EmptyLeft(key);
    assert "" + key + "" == key;
    TrimExact("", key, "");
  }

  /** The directives of `width=device-width, min-width=400, initial-scale=1`, the content the script is written for. */
  const TypicalParts := ["width" + "=" + "device-width", " " + "min-width=" + "400", " initial-scale=1"]

  const TypicalContent := Join(TypicalParts, ',')

  lemma TypicalText()
    ensures TypicalContent == "width=device-width" + [','] + (" min-width=400" + [','] + " initial-scale=1")
  {
    var tail := TypicalParts[1..];
    assert TypicalParts[0] == "width=device-width";
    assert tail[0] == " min-width=400";
    assert tail[1..] == [" initial-scale=1"];
    assert Join(tail, ',') == tail[0] + [','] + Join(tail[1..], ',');
    assert TypicalContent == TypicalParts[0] + [','] + Join(tail, ',');
  }

  lemma TypicalMatch()
    ensures IsLeftmostMatch(TypicalContent, 0, 19)
    ensures TypicalContent[19..] == " min-width=400" + [','] + " initial-scale=1"
  {
    TypicalText();
    var a := "width=device-width";
    var s := a + [','] + (" min-width=400" + [','] + " initial-scale=1");
    assert s[0..5] == a[0..5] == "width";
    assert s[5] == '=';
    assert s[18] == ',';
    assert IsMatchVia(s, 0, 5, 19);
  }

  /** The comma the pattern consumes is not put back. */
  lemma CommaDroppedExample()
    ensures ReplaceWidth(TypicalContent, 400) == OnceContent
  {
    TypicalMatch();
    ReplaceAt(TypicalContent, 0, 19, 400);
    FourHundred();
    CommaDroppedText();
  }

  lemma CommaDroppedText()
    ensures "" + "width=" + "400" + (" min-width=400" + [','] + " initial-scale=1") == OnceContent
  {
    assert "width=400" + " min-width=400" == "width=400 min-width=400";
  }

  lemma TypicalCommaFree()
    ensures forall m :: 0 <= m < |TypicalParts| ==> ',' !in TypicalParts[m]
  {
  }

  lemma TypicalFirstKey()
    ensures Key(TypicalParts[0]) == "width"
  {
    EmptyLeft("width");
    DirectiveParts("", "width", "device-width");
  }

  /** The typical content loads with a cached minimum of 400. */
  lemma TypicalLoads()
    ensures Load(Some(Tag(Some(TypicalContent)))).page == Page(Some(Tag(Some(TypicalContent))), Some(400))
  {
    TypicalFirstKey();
    assert NoMinWidthIn(TypicalParts, 0, 1);
    TypicalCommaFree();
    FourHundred();
    assert TypicalParts[1] == " " + "min-width=" + IntToString(400) + "";
    MinWidthRoundTrip(TypicalParts, 1, " ", 400, "");
  }

  /** What the first update on a 320-pixel screen writes: `width=400 min-width=400, initial-scale=1`. */
  const OnceContent := Join(["width=400 min-width=400", " initial-scale=1"], ',')

  /** What the second update writes: `width=400 initial-scale=1`. */
  const TwiceContent := "width=400 initial-scale=1"

  lemma OnceMatch()
    ensures IsLeftmostMatch(OnceContent, 0, 24)
    ensures OnceContent[24..] == " initial-scale=1"
  {
    var a := "width=400 min-width=400";
    var s := a + [','] + " initial-scale=1";
    assert OnceContent == s;
    assert s[0..5] == a[0..5] == "width";
    assert s[5] == '=';
    assert s[23] == ',';
    assert IsMatchVia(s, 0, 5, 24);
  }

  lemma OnceReplaced()
    ensures ReplaceWidth(OnceContent, 400) == TwiceContent
  {
    OnceMatch();
    ReplaceAt(OnceContent, 0, 24, 400);
    FourHundred();
    TwiceText();
  }

  lemma TwiceText()
    ensures "" + "width=" + "400" + " initial-scale=1" == TwiceContent
  {
  }

  /**
   * A second update on the same narrow screen is not a no-op: the first one
   * merged `width` into `min-width`, the second swallows `min-width`.
   */
  lemma SecondUpdateExample()
    ensures var p := Load(Some(Tag(Some(TypicalContent)))).page;
      && Update(p, 320) == Success(Outcome(Page(Some(Tag(Some(OnceContent))), Some(400)), false))
      && Update(Update(p, 320).value.page, 320)
         == Success(Outcome(Page(Some(Tag(Some(TwiceContent))), Some(400)), false))
      && OnceContent != TwiceContent
  {
    TypicalLoads();
    FirstUpdate();
    SecondUpdate();
    assert |OnceContent| != |TwiceContent|;
  }

  lemma FirstUpdate()
    ensures Update(Page(Some(Tag(Some(TypicalContent))), Some(400)), 320)
         == Success(Outcome(Page(Some(Tag(Some(OnceContent))), Some(400)), false))
  {
    CommaDroppedExample();
  }

  lemma SecondUpdate()
    ensures Update(Page(Some(Tag(Some(OnceContent))), Some(400)), 320)
         == Success(Outcome(Page(Some(Tag(Some(TwiceContent))), Some(400)), false))
  {
    OnceReplaced();
  }

  /** The corrected update rewrites only the `width` directive and keeps its comma. */
  lemma IntendedTypicalExample()
    ensures RewriteWidthDirective(TypicalContent, 400) == Join(TypicalParts[0 := "width=" + "400"], ',')
  {
    TypicalCommaFree();
    SplitJoin(TypicalParts, ',');
    TypicalFirstKey();
    TrimKey("width");
    FindWidthFirst(TypicalParts, 0);
    TypicalFirstDirective();
  }

  lemma TypicalFirstDirective()
    ensures WidthDirective(TypicalParts[0], 400) == "width=" + "400"
  {
    LeadingWhiteSpaceOf("", "width=device-width");
    EmptyLeft("width=device-width");
    EmptyLeft("width=");
    FourHundred();
  }

  /** `min-width=400, width=device-width`: the minimum written before the width. */
  const HijackParts := ["min-width" + "=" + "400", " " + "width" + "=" + "device-width"]

  const HijackContent := Join(HijackParts, ',')

  lemma HijackText()
    ensures HijackContent == "min-width=400" + [','] + " width=device-width"
  {
    assert HijackParts[0] == "min-width=400";
    assert HijackParts[1] == " width=device-width";
    assert Join(HijackParts[1..], ',') == HijackParts[1];
  }

  /** The pattern is unanchored: it matches inside `min-width`. */
  lemma HijackMatch()
    ensures IsLeftmostMatch(HijackContent, 4, 14)
    ensures HijackContent[..4] == "min-" && HijackContent[14..] == " width=device-width"
  {
    HijackText();
    var a := "min-width=400";
    var s := a + [','] + " width=device-width";
    assert s[4..9] == a[4..9] == "width";
    assert s[9] == '=';
    assert s[13] == ',';
    assert IsMatchVia(s, 4, 9, 14);
    forall p, q | 0 <= p < 4
      ensures !IsMatch(s, p, q)
    {
      assert s[p] == a[p];
      NoMatchFrom(s, p);
    }
  }

  /** `replaceWidth` overwrites the minimum and leaves the real `width` directive alone. */
  lemma HijackExample()
    ensures ReplaceWidth(HijackContent, 400) == "min-width=400 width=device-width"
  {
    HijackMatch();
    ReplaceAt(HijackContent, 4, 14, 400);
    FourHundred();
    HijackResultText();
  }

  lemma HijackResultText()
    ensures "min-" + "width=" + "400" + " width=device-width" == "min-width=400 width=device-width"
  {
  }

  lemma HijackCommaFree()
    ensures forall m :: 0 <= m < |HijackParts| ==> ',' !in HijackParts[m]
  {
  }

  lemma HijackNames()
    ensures Name(HijackParts[0]) == "min-width"
    ensures Name(HijackParts[1]) == "width"
  {
    HijackFirstName();
    HijackSecondName();
  }

  lemma HijackFirstName()
    ensures Name(HijackParts[0]) == "min-width"
  {
    EmptyLeft("min-width");
    DirectiveParts("", "min-width", "400");
    TrimKey("min-width");
  }

  lemma HijackSecondName()
    ensures Name(HijackParts[1]) == "width"
  {
    DirectiveParts(" ", "width", "device-width");
    TrimKey("width");
  }

  lemma HijackDirective()
    ensures WidthDirective(HijackParts[1], 400) == " " + "width=" + "400"
  {
    assert HijackParts[1] == " " + "width=device-width";
    LeadingWhiteSpaceOf(" ", "width=device-width");
    FourHundred();
  }

  /** The corrected rewrite skips `min-width` and rewrites the directive named `width`. */
  lemma IntendedHijackExample()
    ensures RewriteWidthDirective(HijackContent, 400) == Join(HijackParts[1 := " " + "width=" + "400"], ',')
  {
    HijackCommaFree();
    SplitJoin(HijackParts, ',');
    HijackNames();
    assert NoWidthIn(HijackParts, 0, 1);
    FindWidthFirst(HijackParts, 1);
    HijackDirective();
  }

  /** `initial-scale=1, width=device-width`: the width written last. */
  const TrailingParts := ["initial-scale" + "=" + "1", " " + "width" + "=" + "device-width"]

  const TrailingContent := Join(TrailingParts, ',')

  lemma TrailingText()
    ensures TrailingContent == "initial-scale=1" + [','] + " width=device-width"
  {
    assert TrailingParts[0] == "initial-scale=1";
    assert TrailingParts[1] == " width=device-width";
    assert Join(TrailingParts[1..], ',') == TrailingParts[1];
  }

  /** A `width` directive with no comma after it is never matched. */
  lemma TrailingNoMatch()
    ensures forall p, q :: !IsMatch(TrailingContent, p, q)
  {
    TrailingText();
    var a := "initial-scale=1";
    var b := " width=device-width";
    var s := a + [','] + b;
    assert 'w' !in a;
    assert ',' !in b;
    forall p, q | 0 <= p < |s|
      ensures !IsMatch(s, p, q)
    {
      if p < |a| {
        assert s[p] == a[p];
      } else if p > |a| {
        forall k | p <= k < |s|
          ensures s[k] != ','
        {
          assert s[k] == b[k - |a| - 1];
        }
      }
      NoMatchFrom(s, p);
    }
  }

  /** `replaceWidth` leaves the content as it was. */
  lemma TrailingExample()
    ensures ReplaceWidth(TrailingContent, 400) == TrailingContent
  {
    TrailingNoMatch();
    ReplaceWidthSpec(TrailingContent, 400);
  }

  lemma TrailingCommaFree()
    ensures forall m :: 0 <= m < |TrailingParts| ==> ',' !in TrailingParts[m]
  {
  }

  lemma TrailingNames()
    ensures Name(TrailingParts[0]) == "initial-scale"
    ensures Name(TrailingParts[1]) == "width"
  {
    TrailingFirstName();
    TrailingSecondName();
  }

  lemma TrailingFirstName()
    ensures Name(TrailingParts[0]) == "initial-scale"
  {
    EmptyLeft("initial-scale");
    DirectiveParts("", "initial-scale", "1");
    TrimKey("initial-scale");
  }

  lemma TrailingSecondName()
    ensures Name(TrailingParts[1]) == "width"
  {
    DirectiveParts(" ", "width", "device-width");
    TrimKey("width");
  }

  lemma TrailingDirective()
    ensures WidthDirective(TrailingParts[1], 400) == " " + "width=" + "400"
  {
    assert TrailingParts[1] == " " + "width=device-width";
    LeadingWhiteSpaceOf(" ", "width=device-width");
    FourHundred();
  }

  /** The corrected rewrite finds the trailing `width` directive. */
  lemma IntendedTrailingExample()
    ensures RewriteWidthDirective(TrailingContent, 400) == Join(TrailingParts[1 := " " + "width=" + "400"], ',')
  {
    TrailingCommaFree();
    SplitJoin(TrailingParts, ',');
    TrailingNames();
    assert NoWidthIn(TrailingParts, 0, 1);
    FindWidthFirst(TrailingParts, 1);
    TrailingDirective();
  }

  /** A single directive, with no comma, is the only part. */
  lemma {:induction false} OneDirective(d: string)
    requires ',' !in d
    ensures ParseMinWidth(d) == if Key(d) == "min-width" then ReadDirective(d) else Failure(NoMinWidth)
  {
    SplitWithoutSeparator(d, ',');
    ParseMinWidthSpec(d);
    if Key(d) == "min-width" {
      assert IsFirstMinWidth([d], 0);
    } else {
      assert NoMinWidthIn([d], 0, 1);
    }
  }

  /** A directive without leading white space is keyed by the text before its `=`. */
  lemma KeyBeforeEquals(key: string, value: string)
    requires |key| > 0 && '=' !in key && !IsStrWhiteSpaceChar(key[0])
    requires |value| == 0 || !IsStrWhiteSpaceChar(value[|value| - 1])
    ensures Key(key + "=" + value) == key
  {
    EmptyLeft(key);
    DirectiveParts("", key, value);
  }

  /**
   * `min-width = 400` and `Min-Width=400` are not `min-width` directives: the
   * spaces around `=` stay in the key, and the match is case-sensitive.
   */
  lemma KeyVariantsExample()
    ensures ParseMinWidth("min-width " + "=" + " 400") == Failure(NoMinWidth)
    ensures ParseMinWidth("Min-Width" + "=" + "400") == Failure(NoMinWidth)
  {
    KeyBeforeEquals("min-width ", " 400");
    OneDirective("min-width " + "=" + " 400");
    KeyBeforeEquals("Min-Width", "400");
    OneDirective("Min-Width" + "=" + "400");
  }

  /** `min-width=abc, min-width=400`: the first `min-width` directive decides, and it is not a number. */
  const NonNumericParts := ["min-width" + "=" + "abc", " " + "min-width=" + "400"]

  lemma NonNumericFirst()
    ensures Key(NonNumericParts[0]) == "min-width"
    ensures ReadDirective(NonNumericParts[0]) == Failure(NonNumeric)
  {
    EmptyLeft("min-width");
    DirectiveParts("", "min-width", "abc");
    SplitWithoutSeparator("abc", '=');
    ParseIntNaN("abc");
  }

  lemma NonNumericExample()
    ensures ParseMinWidth(Join(NonNumericParts, ',')) == Failure(NonNumeric)
  {
    assert forall m :: 0 <= m < |NonNumericParts| ==> ',' !in NonNumericParts[m];
    SplitJoin(NonNumericParts, ',');
    NonNumericFirst();
    assert IsFirstMinWidth(NonNumericParts, 0);
    ParseMinWidthSpec(Join(NonNumericParts, ','));
  }
}
