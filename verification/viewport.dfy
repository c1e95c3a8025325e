/**
 * The two entry points of viewport-min-width.js: `initMinViewportWidth`
 * (lines 19-33), which runs once as the script loads (line 17), and
 * `updateMetaViewport` (lines 35-48), which the page calls when the screen
 * width may have changed.  The module-level variables `initialViewport` and
 * `minWidth` (lines 14-15) become a `Page` value threaded through both calls;
 * the DOM tag becomes its `content` attribute, and `screen.width` a parameter.
 */
module Viewport {
  import opened Wrappers
  import opened WidthPattern
  import opened MinWidth

  /** The `meta[name=viewport]` element, reduced to its `content` attribute (`None`: attribute absent). */
  datatype Tag = Tag(content: Option<string>)

  /** The script's two globals: `initialViewport` and the cached `minWidth` (`None` is null). */
  datatype Page = Page(viewport: Option<Tag>, minWidth: Option<int>)

  /** The page after a call, and whether the call wrote a `console.warn`. */
  datatype Outcome = Outcome(page: Page, warned: bool)

  /**
   * The uncaught TypeErrors of `updateMetaViewport`: calling `getAttribute` on a
   * null `initialViewport` (line 43), or `replace` on a null `content` (line 70).
   * Whether line 37 warned before the error is fixed by the fault itself; see
   * `UpdateFaults`.
   */
  datatype Fault = NullViewport | NullContent

  /** The globals as lines 14-15 declare them. */
  const Initial := Page(None, None)

  /**
   * `initMinViewportWidth()` given what `document.querySelector` found:
   * `initialViewport` is always overwritten; `minWidth` only when `getMinWidth`
   * succeeds, otherwise it keeps its previous value and the call warns.
   */
  function Init(prior: Page, found: Option<Tag>): Outcome {
    match found
    case None => Outcome(Page(None, prior.minWidth), true)
    case Some(tag) =>
      match GetMinWidth(tag.content)
      case Success(m) => Outcome(Page(found, Some(m)), false)
      case Failure(_) => Outcome(Page(found, prior.minWidth), true)
  }

  /** Line 17: the initialization that runs when the script loads. */
  function Load(found: Option<Tag>): Outcome {
    Init(Initial, found)
  }

  /** `!minWidth` on line 36: null and the number 0 are falsy. */
  predicate Falsy(minWidth: Option<int>) {
    minWidth == None || minWidth == Some(0)
  }

  /** `screen.width < minWidth` on line 40: a null `minWidth` compares as 0. */
  predicate Below(screenWidth: nat, minWidth: Option<int>) {
    match minWidth
    case None => screenWidth < 0
    case Some(m) => screenWidth < m
  }

  /**
   * `updateMetaViewport()` for a screen `screenWidth` wide.  The guard on line 36
   * only warns; the rewrite happens when the screen is narrower than the cached
   * minimum, and reads the tag's current content, not the content at load time.
   */
  function Update(p: Page, screenWidth: nat): Result<Outcome, Fault> {
    UpdateWith(p, screenWidth, ReplaceWidth)
  }

  /** The decision of `updateMetaViewport`, for a given way `rewrite` of setting the width in a content string. */
  function UpdateWith(p: Page, screenWidth: nat, rewrite: (string, int) -> string): Result<Outcome, Fault> {
    var warned := p.viewport.None? || Falsy(p.minWidth);
    if !Below(screenWidth, p.minWidth) then Success(Outcome(p, warned))
    else
      match p.viewport
      case None => Failure(NullViewport)
      case Some(tag) =>
        match tag.content
        case None => Failure(NullContent)
        case Some(c) =>
          var tag' := Tag(Some(rewrite(c, p.minWidth.value)));
          Success(Outcome(Page(Some(tag'), p.minWidth), warned))
  }

  /** Every state the script can reach: a cached minimum implies a tag with content. */
  ghost predicate Reachable(p: Page) {
    p.minWidth.Some? ==> p.viewport.Some? && p.viewport.value.content.Some?
  }

  /**
   * Loading caches a minimum exactly when a tag was found and `getMinWidth`
   * succeeded on it, and warns exactly when it does not; the tag found is kept
   * either way.
   */
  lemma LoadCachesMinWidth(found: Option<Tag>, m: int)
    ensures Load(found).page.minWidth == Some(m) <==>
      found.Some? && GetMinWidth(found.value.content) == Success(m)
    ensures Load(found).page.minWidth == None <==>
      found.None? || GetMinWidth(found.value.content).Failure?
    ensures Load(found).warned <==> Load(found).page.minWidth == None
    ensures Load(found).page.viewport == found
    ensures Reachable(Load(found).page)
  {
  }

  /**
   * From any reachable state an update succeeds, keeps the cached minimum and
   * the state reachable, and warns exactly when the tag is missing or the
   * minimum is null or 0.
   */
  lemma UpdateReachable(p: Page, screenWidth: nat)
    requires Reachable(p)
    ensures Update(p, screenWidth).Success?
    ensures Reachable(Update(p, screenWidth).value.page)
    ensures Update(p, screenWidth).value.page.minWidth == p.minWidth
    ensures Update(p, screenWidth).value.warned <==>
      p.viewport.None? || p.minWidth.None? || p.minWidth == Some(0)
  {
  }

  /**
   * With a cached minimum `m`, an update rewrites the tag's content to
   * `replaceWidth(content, m)` if the screen is narrower than `m`, and leaves
   * the page exactly as it was otherwise.
   */
  lemma UpdateRewritesIffNarrower(c: string, m: int, screenWidth: nat)
    ensures var p := Page(Some(Tag(Some(c))), Some(m));
      Update(p, screenWidth).Success? &&
      (screenWidth < m ==> Update(p, screenWidth).value.page == Page(Some(Tag(Some(ReplaceWidth(c, m)))), Some(m))) &&
      (screenWidth >= m ==> Update(p, screenWidth).value.page == p)
  {
  }

  /**
   * When initialization left `minWidth` null, or cached 0 or a negative number,
   * no screen width triggers a rewrite: the page is returned unchanged.
   */
  lemma UnsetMinWidthIsNoOp(p: Page, screenWidth: nat)
    requires p.minWidth.None? || p.minWidth.value <= 0
    ensures Update(p, screenWidth) == Success(Outcome(p, Update(p, screenWidth).value.warned))
  {
  }

  /**
   * The decision reads the cached minimum, not the content: a second update
   * with the same narrow screen applies `replaceWidth` again to the content the
   * first one wrote.
   */
  lemma SecondUpdateReapplies(c: string, m: int, screenWidth: nat)
    requires screenWidth < m
    ensures var p := Page(Some(Tag(Some(c))), Some(m));
      var once := Update(p, screenWidth).value.page;
      Update(once, screenWidth).value.page.viewport == Some(Tag(Some(ReplaceWidth(ReplaceWidth(c, m), m))))
  {
  }

  /**
   * An update throws exactly when the screen is narrower than the cached
   * minimum and there is no tag or no content to rewrite.  The line-37 warning
   * precedes a missing tag and never a missing content, so a `Fault` carries
   * no separate warning flag.
   */
  lemma UpdateFaults(p: Page, screenWidth: nat)
    ensures Update(p, screenWidth).Failure? <==>
      Below(screenWidth, p.minWidth) && (p.viewport.None? || p.viewport.value.content.None?)
    ensures Update(p, screenWidth).Failure? ==>
      (Update(p, screenWidth).error == NullViewport <==> p.viewport.None? || Falsy(p.minWidth))
  {
  }
}
