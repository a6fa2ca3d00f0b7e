/**
 * The content script's `Clicker` object: the fields it updates in place and
 * the handlers the browser calls on it, each proved to make the step the
 * state machine in `Schedule` prescribes.
 */
module Content {
  import opened Wrappers
  import opened Dom
  import opened Schedule

  /** Message of the error thrown when the page has no `ytd-app` element. */
  const MissingAppMessage: string := "Failed to find ytd-app element"

  class Clicker {
    /** When the last check ran, in milliseconds. */
    var lastCheckTime: int
    /** The pending check timer (`checkTimeoutId`), as the time it fires. */
    var checkDeadline: Option<int>
    /** The `ytd-player` element being observed. */
    var player: Option<PlayerId>

    function State(): Snapshot
      reads this
    {
      Snapshot(lastCheckTime, checkDeadline, player)
    }

    ghost predicate Valid()
      reads this
    {
      Inv(State())
    }

    constructor ()
      ensures Valid() && State() == Initial
    {
      lastCheckTime := 0;
      checkDeadline := None;
      player := None;
    }

    /**
     * Handles a mutation of the `ytd-app` element: `found` is the
     * `ytd-player` element now in the document, `isWatchPage` whether the app
     * carries the `is-watch-page` attribute.
     */
    method OnAppMutation(now: int, found: Option<PlayerId>, isWatchPage: bool, page: Page)
      returns (checkRan: bool, actions: seq<Action>, retryAt: Option<int>)
      requires Valid()
      modifies this
      ensures Valid()
      ensures Step(State(), checkRan, actions, retryAt) == AppMutation(old(State()), now, found, isWatchPage, page)
    {
      checkRan, actions, retryAt := false, [], None;
      if found.Some? && player == found {
        return;  // already watching this player
      }

      player := found;
      if checkDeadline.Some? {
        checkDeadline := None;  // cancel the pending check
      }

      if player.Some? {
        checkRan, actions := OnPlayerMutation(now, page);
      } else if isWatchPage {
        retryAt := Some(now + FindPlayerRetryMs);  // look for the player again later
      }
    }

    /** Handles a mutation inside the watched player. */
    method OnPlayerMutation(now: int, page: Page) returns (checkRan: bool, actions: seq<Action>)
      requires Valid() && player.Some?
      modifies this
      ensures Valid()
      ensures Step(State(), checkRan, actions, None) == PlayerMutation(old(State()), now, page)
    {
      checkRan, actions := false, [];
      if checkDeadline.Some? {
        return;  // already queued
      }

      var elapsed := now - lastCheckTime;
      if elapsed >= MutationDebounceMs {
        actions := Check(now, page);
        checkRan := true;
      } else {
        checkDeadline := Some(now + (MutationDebounceMs - elapsed));
      }
    }

    /** The callback of the check timer, run by the browser once it is due. */
    method OnCheckTimer(now: int, page: Page) returns (actions: seq<Action>)
      requires Valid() && checkDeadline.Some? && now >= checkDeadline.value
      modifies this
      ensures Valid()
      ensures Step(State(), true, actions, None) == CheckTimerFires(old(State()), now, page)
    {
      checkDeadline := None;
      actions := Check(now, page);
    }

    /** Clicks whatever can be clicked, jumps over an unskippable ad, stamps the time. */
    method Check(now: int, page: Page) returns (actions: seq<Action>)
      requires player.Some?
      modifies this`lastCheckTime
      ensures lastCheckTime == now
      ensures actions == CheckActions(page)
    {
      actions := ClickPresent(ClickSelectors, page.inPlayer);
      if AdPreviewContainer in page.inDocument && SkipButton !in page.inDocument {
        if VideoStream in page.inDocument {
          actions := actions + [JumpToEnd];
        }
      }
      lastCheckTime := now;
    }
  }

  /**
   * Constructs a clicker. Without a `ytd-app` element construction fails and
   * schedules nothing; otherwise the app handler is scheduled to run at once,
   * to handle a watch page that was loaded directly.
   */
  method Start(appFound: bool, now: int) returns (r: Result<Clicker>, appCheckAt: Option<int>)
    ensures r.Err? <==> !appFound
    ensures r.Err? ==> r.message == MissingAppMessage && appCheckAt.None?
    ensures r.Ok? ==> fresh(r.value) && r.value.Valid() && r.value.State() == Initial && appCheckAt == Some(now)
  {
    var c := new Clicker();
    if !appFound {
      return Err(MissingAppMessage), None;
    }
    r, appCheckAt := Ok(c), Some(now);
  }
}
