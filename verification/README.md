# viewport-min-width in Dafny

This project models `viewport-min-width.js`. It is a page script that adds a
`min-width` directive to the `<meta name="viewport">` tag. When the script
loads, `initMinViewportWidth` finds the tag and reads the first `min-width=N`
directive from its `content` attribute. It caches that number. When the page
calls `updateMetaViewport` on a screen narrower than `N`, the tag's `width`
directive is rewritten to `width=N`.

The model is made of pure functions over strings:

- `JsString`: the parts of the JavaScript string library the script uses.
  These are `split` with a one-character separator, `trim` with the ECMAScript
  white-space set, and `join`, which serves as a reference for `split`.
- `JsNumber`: the global `parseInt` with one argument, and the decimal rendering
  `"width=".concat(n)` produces. `parseInt` skips leading white space, takes an
  optional sign and an optional `0x`/`0X` prefix, then reads the maximal run of
  digits. NaN is `None`.
- `WidthPattern`: the regular expression `/width *= *.*?,/`, in two forms. One is
  the backtracking search an engine performs. The other is a declarative
  statement of which text it matches. `ReplaceWidth` is `replaceWidth`.
- `MinWidth`: `getMinWidth`, returning a `Result` instead of throwing. Its three
  errors are a non-numeric value, no `min-width` directive, and a missing
  `content` attribute.
- `Viewport`: the two globals become a `Page` value. `Init`/`Load` model
  `initMinViewportWidth` and `Update` models `updateMetaViewport`. The
  screen width is a parameter. The `console.warn` calls become a boolean.
  The uncaught `TypeError`s become a `Fault`.
- `Intended`: a corrected rewrite. It replaces the directive named `width` and
  nothing else, and it is used by `UpdateIntended`. It is the corrected half of
  each finding below. `Viewport.Update` keeps the behaviour as written.
- `Examples`: concrete contents that exhibit each finding.

The header comment (lines 2-4) says that on a device narrower than the
minimum the script scales the viewport to the minimum, and otherwise leaves
the tag alone. Read as intent, only the value of the `width` directive should
change. The model follows the code, which does more than that:

- The regular expression consumes the comma after the `width` value, and the
  replacement has none. The `width` directive is merged into the next one.
- The decision on line 40 reads the cached minimum, not the current content.
  A second update on the same narrow screen applies `replaceWidth` again, to
  the content the first update wrote.
- The pattern is not anchored to a directive, so it can match the `width` inside
  `min-width`. It also needs a comma after the value, so a `width` directive
  written last is never rewritten.
- The guard on lines 36-38 only warns. When no minimum was cached, an update
  still changes nothing, but for a different reason: line 40 compares
  `screen.width < null`, which is `screen.width < 0` and false for every
  screen width. A cached `0` or a negative minimum compares false as well.

Lines 29, 57 and 58 of the source are not valid JavaScript: `catch(const s)`,
`const minWidth parseInt(...)`, and `if(!isNaN(minWidth){`. The model follows
their evident meaning: `catch (s)`, `const minWidth = parseInt(pair[1])`, and
`if (!isNaN(minWidth))`.

## Model

| member | source | states |
|---|---|---|
| JsString.SplitSpec | viewport-min-width.js:52 | no piece of `split` contains the separator, and the first piece is the text before the first separator (all of the string when there is none) |
| JsString.JoinSplit | viewport-min-width.js:52 | joining the pieces of a split with the separator gives back the original string, so splitting loses nothing |
| JsString.SplitJoin | viewport-min-width.js:52 | splitting a join of separator-free pieces gives back exactly those pieces |
| JsString.SplitWithoutSeparator | viewport-min-width.js:55 | a string without the separator splits into itself alone |
| JsString.SplitAfterPiece | viewport-min-width.js:55 | a separator-free piece followed by the separator becomes the first piece, and the rest splits independently |
| JsString.TrimStartSpec | viewport-min-width.js:54 | the start-trimmed string is a suffix, everything dropped is white space, and what is kept does not start with white space |
| JsString.TrimEndSpec | viewport-min-width.js:54 | the end-trimmed string is a prefix, everything dropped is white space, and what is kept does not end with white space |
| JsString.TrimExact | viewport-min-width.js:54 | `trim` of white space, a core that neither starts nor ends with white space, and white space is exactly that core |
| JsString.LeadingWhiteSpace | viewport-min-width.js:54 | the leading white space followed by the start-trimmed text reassembles the string |
| JsNumber.DigitRun | viewport-min-width.js:57 | the digit run `parseInt` reads is the longest prefix of digits: every character in it is a digit and the next one is not |
| JsNumber.NatToString | viewport-min-width.js:69 | the rendering of a natural number is a non-empty digit string whose value is that number, with no leading zero |
| JsNumber.IntToString | viewport-min-width.js:69 | the rendering is digits with a leading `-` exactly when the number is negative |
| JsNumber.DigitRunExact | viewport-min-width.js:57 | a run of digits followed by a non-digit is read in full |
| JsNumber.ParseIntAfterWhiteSpace | viewport-min-width.js:57 | leading white space does not change what `parseInt` reads |
| JsNumber.ParseIntDecimal | viewport-min-width.js:57 | `parseInt` of white space, a sign, decimal digits and then a non-digit is the signed value of those digits |
| JsNumber.ParseIntToString | viewport-min-width.js:57 | `parseInt` reads back the rendering of every integer, whatever non-digit text follows it; after the rendering `0` that text must not start with `x` or `X`, which would make a `0x` prefix |
| JsNumber.ParseIntNaN | viewport-min-width.js:57-58 | `parseInt` is NaN on the empty string and on text such as `undefined` that starts with neither white space, a sign nor a digit |
| WidthPattern.SpacesEnd | viewport-min-width.js:68 | ` *` consumes the maximal run of spaces |
| WidthPattern.LazyToComma | viewport-min-width.js:68 | `.*?,` ends just after the first comma before any line terminator, and fails exactly when no comma is reachable |
| WidthPattern.MatchAt | viewport-min-width.js:68 | the engine's attempt at a position succeeds only with a match and fails only when no match starts there |
| WidthPattern.Search | viewport-min-width.js:68-70 | the scan returns a match that no match further left precedes, or nothing when no match exists |
| WidthPattern.MatchEndUnique | viewport-min-width.js:68 | the lazy quantifier makes at most one match start at each position |
| WidthPattern.MatchAtExact | viewport-min-width.js:68 | the engine's attempt at a position returns exactly the declarative match there, in both directions |
| WidthPattern.SearchLeftmost | viewport-min-width.js:68-70 | the search result is exactly the leftmost match, in both directions |
| WidthPattern.ReplaceWidthSpec | viewport-min-width.js:67-72 | `replaceWidth` puts `width=N` over the leftmost match and keeps the text before and after it; with no match the content is returned unchanged |
| WidthPattern.MatchHasOneComma | viewport-min-width.js:68 | a match holds exactly one comma, its last character |
| WidthPattern.ReplaceWidthDropsOneComma | viewport-min-width.js:68-70 | a replacement leaves exactly one comma fewer than the content had |
| MinWidth.FindMinWidth | viewport-min-width.js:53-56 | the loop stops at the first directive keyed `min-width`, or reports that none is |
| MinWidth.ParseMinWidthSpec | viewport-min-width.js:52-64 | `getMinWidth` is decided by the first directive keyed `min-width`, whatever later directives hold; it fails with the not-found error exactly when no directive is keyed `min-width` |
| MinWidth.KeyIsMinWidth | viewport-min-width.js:54-56 | a directive is keyed `min-width` exactly when its trimmed text is `min-width` or starts with `min-width=`, so the match is case-sensitive and spaces before `=` defeat it |
| MinWidth.BareKeyIsNonNumeric | viewport-min-width.js:55-61 | a `min-width` directive without `=` reads `parseInt(undefined)` and fails as non-numeric |
| MinWidth.DirectivePartsAround | viewport-min-width.js:54-57 | for white space, a key, `=`, a value and white space, the key is the text before `=` and `parseInt` is given the value up to its next `=` |
| MinWidth.DirectiveParts | viewport-min-width.js:54-57 | for white space, a key, `=` and a value, the key is the text before `=` and `parseInt` is given the value up to its next `=` |
| MinWidth.NumberDirective | viewport-min-width.js:54-59 | a directive whose value is the rendering of `N` is keyed by the text before `=` and reads back as `N` |
| MinWidth.DirectiveRoundTrip | viewport-min-width.js:54-59 | the directive `min-width=N`, with any white space before and after it, is keyed `min-width` and reads back as `N` |
| MinWidth.MinWidthRoundTrip | viewport-min-width.js:52-59 | content holding `min-width=N`, with any white space around it and in any position, yields `N` when no earlier directive is keyed `min-width` |
| Viewport.LoadCachesMinWidth | viewport-min-width.js:17-33 | loading caches a minimum exactly when the tag exists and `getMinWidth` succeeds, warns exactly when it caches none, and keeps the tag it found |
| Viewport.UpdateReachable | viewport-min-width.js:35-48 | from every state loading can reach, an update does not throw, keeps the cached minimum and reachability, and warns exactly when the tag is missing or the minimum is null or 0 |
| Viewport.UpdateRewritesIffNarrower | viewport-min-width.js:40-45 | with a cached minimum, an update rewrites the content with `replaceWidth` when the screen is narrower and otherwise leaves the page exactly as it was |
| Viewport.UnsetMinWidthIsNoOp | viewport-min-width.js:36-40 | with no cached minimum, or one that is 0 or negative, no screen width changes the page |
| Viewport.UpdateFaults | viewport-min-width.js:36-46 | an update throws exactly when the screen is narrower than the cached minimum and the tag or its content is missing; the fault is a missing tag exactly when line 37 warned before it |
| Viewport.SecondUpdateReapplies | viewport-min-width.js:40-45 | a second update on the same narrow screen applies `replaceWidth` again, to the content the first one wrote |
| Intended.FindWidth | viewport-min-width.js:68 | the corrected search stops at the first directive whose trimmed key is `width` |
| Intended.WidthDirectiveFacts | viewport-min-width.js:69 | the replacement directive has no comma, is keyed and named `width`, reads back as `N`, and is its own replacement |
| Intended.WidthIsNotMinWidth | viewport-min-width.js:56 | a directive named `width` is never keyed `min-width` |
| Intended.RewriteKeepsOtherDirectives | viewport-min-width.js:67-72 | the corrected rewrite keeps the directive count and every directive other than the first one named `width`, which becomes `width=N` after its own leading white space; with no such directive it changes nothing |
| Intended.ReplaceNonMinWidth | viewport-min-width.js:52-64 | replacing a directive not keyed `min-width` by another such directive leaves `getMinWidth` unchanged |
| Intended.FindMinWidthAgrees | viewport-min-width.js:53-56 | two directive lists that agree on their `min-width` directives give the same search result |
| Intended.RewritePreservesMinWidth | viewport-min-width.js:50-72 | the corrected rewrite never changes what `getMinWidth` reads from the content |
| Intended.RewriteIdempotent | viewport-min-width.js:67-72 | applying the corrected rewrite twice gives the same result as applying it once |
| Intended.UpdateIntendedIdempotent | viewport-min-width.js:35-48 | with the corrected rewrite, two updates with the same screen width leave the page as one update does |
| Examples.TypicalLoads | viewport-min-width.js:17-33 | loading `width=device-width, min-width=400, initial-scale=1` caches 400 |
| Examples.CommaDroppedExample | viewport-min-width.js:68-70 | `replaceWidth` turns that content into `width=400 min-width=400, initial-scale=1` |
| Examples.SecondUpdateExample | viewport-min-width.js:40-45 | two updates on a 320-pixel screen give `width=400 min-width=400, initial-scale=1` and then `width=400 initial-scale=1` |
| Examples.HijackMatch | viewport-min-width.js:68 | in `min-width=400, width=device-width` the leftmost match starts inside `min-width` |
| Examples.HijackExample | viewport-min-width.js:68-70 | `replaceWidth` turns that content into `min-width=400 width=device-width` |
| Examples.TrailingNoMatch | viewport-min-width.js:68 | `initial-scale=1, width=device-width` contains no match |
| Examples.TrailingExample | viewport-min-width.js:68-70 | `replaceWidth` returns that content unchanged |
| Examples.IntendedTypicalExample | viewport-min-width.js:67-72 | the corrected rewrite turns the typical content into `width=400, min-width=400, initial-scale=1` |
| Examples.IntendedHijackExample | viewport-min-width.js:67-72 | the corrected rewrite turns `min-width=400, width=device-width` into `min-width=400, width=400` |
| Examples.IntendedTrailingExample | viewport-min-width.js:67-72 | the corrected rewrite turns `initial-scale=1, width=device-width` into `initial-scale=1, width=400` |
| Examples.KeyVariantsExample | viewport-min-width.js:54-56 | neither `min-width = 400` nor `Min-Width=400` is a `min-width` directive, so `getMinWidth` reports none for either |
| Examples.NonNumericExample | viewport-min-width.js:56-61 | `min-width=abc, min-width=400` fails as non-numeric; the later valid directive is never examined |

## Left out

- DOM access is not modelled: `document.querySelector`, `getAttribute`, `setAttribute` and the remove/append in `replaceMetaViewportTag` (lines 20, 43-46, 74-78). The tag is its `content` attribute, and an update returns the new content instead of re-inserting the element.
- `newViewport` aliases `initialViewport` (line 41). That only matters for object identity, which a value model does not have.
- The warning texts of `console.warn` (lines 22, 30, 37) are not modelled. `Outcome.warned` records only whether a warning was written.
- `screen.width` is a natural-number parameter, not a platform reading.
- JavaScript numbers are modelled as mathematical integers. `parseInt` results beyond 2^53 lose precision in the source. Large numbers also render in exponent form there. Neither is modelled.
- A digit run long enough to overflow to `Infinity` in the source reads as its exact value in the model. The model has no radix argument, because the script passes none.
- Strings are sequences of code points, not UTF-16 code units. The two differ only for characters outside the Basic Multilingual Plane, which the script's patterns never touch.
- `String.prototype.replace` treats `$` in a replacement string as a pattern. `"width=" + N` never contains `$`, so it is not modelled.
- JsString.Split: its own contract states only that the result is non-empty. What the pieces are is stated by `SplitSpec`, `JoinSplit` and `SplitJoin`.
- Viewport.LoadCachesMinWidth, Viewport.UpdateReachable, Viewport.UpdateRewritesIffNarrower, Viewport.UnsetMinWidthIsNoOp, Viewport.SecondUpdateReapplies, Viewport.UpdateFaults: these follow from the definitions without further proof. They state the decision logic, and the string work sits in the lemmas about `ReplaceWidth` and `ParseMinWidth`.

## Findings

| source | as written | input that shows it | evidently intended | confidence | as-written member | corrected member |
|---|---|---|---|---|---|---|
| viewport-min-width.js:68-69 | the pattern consumes the comma after the width value and the replacement `"width=" + N` has none | `width=device-width, min-width=400, initial-scale=1` with N = 400 gives `width=400 min-width=400, initial-scale=1` | only the width value changes, and directives stay comma-separated | not executed | Examples.CommaDroppedExample | Intended.RewriteKeepsOtherDirectives |
| viewport-min-width.js:40-45 | the decision reads the cached minimum, so a second update rewrites the content the first one produced | the same content on a 320-pixel screen gives `width=400 min-width=400, initial-scale=1` and then `width=400 initial-scale=1`, losing `min-width` | a repeated update is a no-op | not executed | Examples.SecondUpdateExample | Intended.UpdateIntendedIdempotent |
| viewport-min-width.js:68 | the pattern is unanchored and matches the `width` inside `min-width` | `min-width=400, width=device-width` gives `min-width=400 width=device-width` | the directive named `width` is rewritten | not executed | Examples.HijackExample | Examples.IntendedHijackExample |
| viewport-min-width.js:68 | the pattern needs a comma after the value, so a `width` directive written last is never rewritten | `initial-scale=1, width=device-width` is returned unchanged | the last directive is rewritten like any other | not executed | Examples.TrailingExample | Examples.IntendedTrailingExample |
