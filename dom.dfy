/**
 * The page as the content script sees it: the selectors it looks for, a
 * snapshot of which of them match, and the decision `check` takes on such a
 * snapshot.
 */
module Dom {

  /** Identity of a `ytd-player` element (JavaScript compares them with `===`). */
  type PlayerId = nat

  /** Close button of a banner ad. */
  const OverlayCloseButton: string := ".ytp-ad-overlay-close-button"
  /** Skip button shown during video ads. */
  const SkipButton: string := ".ytp-ad-skip-button"
  /** Dismiss link of the subscription promo across the bottom of the screen. */
  const MealbarDismissButton: string := "ytd-mealbar-promo-renderer #dismiss-button a"
  /** Countdown shown before an ad can be skipped. */
  const AdPreviewContainer: string := ".ytp-ad-preview-container"
  /** The element that plays the video (or the ad). */
  const VideoStream: string := "video.video-stream"

  /** The selectors `check` clicks, in the order it tries them. */
  const ClickSelectors: seq<string> := [OverlayCloseButton, SkipButton, MealbarDismissButton]

  /**
   * What the queries of one check find: the selectors with a match inside
   * the watched player, and those with a match anywhere in the document.
   * Clicking can run page handlers that change the document before the later
   * queries, so the two sets are independent of each other; each selector is
   * asked once of each.
   */
  datatype Page = Page(inPlayer: set<string>, inDocument: set<string>)

  /** A visible effect of `check` on the page. */
  datatype Action =
    | Click(selector: string)  // the first element matching `selector` was clicked
    | JumpToEnd                // the video's position was set to its duration

  /**
   * The clicks made by trying each selector of `sels` in turn and clicking it
   * when it matches: exactly the present selectors, each as often as it is
   * listed, and nothing else.
   */
  function Clicks(sels: seq<string>, present: set<string>): (r: seq<Action>)
    ensures forall a :: a in r <==> a.Click? && a.selector in sels && a.selector in present
    ensures forall sel :: multiset(r)[Click(sel)] == (if sel in present then multiset(sels)[sel] else 0)
    ensures |r| <= |sels|
  {
    if sels == [] then []
    else
      var last := sels[|sels| - 1];
      assert sels == sels[..|sels| - 1] + [last];
      Clicks(sels[..|sels| - 1], present) + (if last in present then [Click(last)] else [])
  }

  /** The jump-to-end condition of `check`, on a snapshot of the document. */
  predicate WantsJumpToEnd(page: Page)
  {
    AdPreviewContainer in page.inDocument && SkipButton !in page.inDocument && VideoStream in page.inDocument
  }

  /**
   * Everything one `check` does to the page: it clicks exactly the listed
   * selectors that match inside the player, and afterwards jumps the video to
   * its end exactly when an ad preview is shown, no skip button exists and a
   * video element exists.
   */
  function CheckActions(page: Page): (acts: seq<Action>)
    ensures forall sel :: Click(sel) in acts <==> sel in ClickSelectors && sel in page.inPlayer
    ensures JumpToEnd in acts <==>
              AdPreviewContainer in page.inDocument && SkipButton !in page.inDocument && VideoStream in page.inDocument
    ensures JumpToEnd in acts ==> acts[|acts| - 1] == JumpToEnd
    ensures forall i :: 0 <= i < |acts| - 1 ==> acts[i].Click?
    ensures |acts| <= |ClickSelectors| + 1
  {
    Clicks(ClickSelectors, page.inPlayer) + (if WantsJumpToEnd(page) then [JumpToEnd] else [])
  }

  /**
   * The loop of `check`: tries each selector in order and records a click
   * for each one that matches inside the player.
   */
  method ClickPresent(sels: seq<string>, present: set<string>) returns (clicks: seq<Action>)
    ensures clicks == Clicks(sels, present)
  {
    clicks := [];
    for i := 0 to |sels|
      invariant clicks == Clicks(sels[..i], present)
    {
      var sel := sels[i];
      assert sels[..i + 1][..i] == sels[..i];
      if sel in present {
        clicks := clicks + [Click(sel)];
      }
    }
    assert sels[..|sels|] == sels;
  }

  /**
   * The clicks of one check, written out: the banner close button first, then
   * the skip button, then the promo's dismiss link, each only when it matches
   * inside the player.
   */
  lemma CheckClicksInListedOrder(page: Page)
    ensures CheckActions(page) ==
              (if OverlayCloseButton in page.inPlayer then [Click(OverlayCloseButton)] else []) +
              (if SkipButton in page.inPlayer then [Click(SkipButton)] else []) +
              (if MealbarDismissButton in page.inPlayer then [Click(MealbarDismissButton)] else []) +
              (if WantsJumpToEnd(page) then [JumpToEnd] else [])
  {
    var p := page.inPlayer;
    assert ClickSelectors[..2] == [OverlayCloseButton, SkipButton];
    assert [OverlayCloseButton, SkipButton][..1] == [OverlayCloseButton];
    assert [OverlayCloseButton][..0] == [];
    assert Clicks([OverlayCloseButton], p) == (if OverlayCloseButton in p then [Click(OverlayCloseButton)] else []);
    assert Clicks([OverlayCloseButton, SkipButton], p)
        == Clicks([OverlayCloseButton], p) + (if SkipButton in p then [Click(SkipButton)] else []);
  }
}
