# ytskip clicker: a Dafny model of its scheduling state machine

ytskip is a browser content script that dismisses ads on the video site. It
clicks ad close and skip buttons and jumps over ads that cannot be skipped yet.
Its one piece of logic is the `Clicker` class in `content.js`, and that class is
what this project models:

- `onAppMutation` runs when the `ytd-app` element changes, which is how the
  script notices navigation. It looks up the `ytd-player` element. If that is
  the player already watched, it does nothing. Otherwise it watches the new
  player (or none), cancels any pending check timer, and then either handles
  the new player at once or, on a watch page that has no player yet, tries
  again after 200 ms.
- `onPlayerMutation` runs when an element is added to or removed from
  anywhere inside the player, and from `onAppMutation` (content.js:53).
  Changes to attributes, styles or text inside the player do not trigger it.
  It is a debounce. While a check timer is pending it does nothing. If at least 100 ms
  have passed since the last check, it checks at once. Otherwise it arms one
  timer for the rest of the window.
- `check` clicks, in a fixed order, the banner close button, the skip button
  and the promo's dismiss link, each one only when it matches inside the
  player. Then, if an ad preview is shown, no skip button exists and a video
  element exists, it jumps the video to its end. Finally it records the time
  of the check.

Files:

- `wrappers.dfy` (`Wrappers`): `Option` and `Result`.
- `dom.dfy` (`Dom`): the selectors and a snapshot of the page (`Page`: the
  selectors that match inside the player and in the whole document). It also
  holds the actions `check` takes (`Action`: a click on a selector, or the jump
  to the end). `CheckActions` is the decision of `check` on a snapshot, and
  `ClickPresent` is its loop over the selector list.
- `schedule.dfy` (`Schedule`): the state machine as values. `Snapshot` holds
  the class's three fields. There is one step function per handler,
  `AppMutation`, `PlayerMutation` and `CheckTimerFires`, each returning the new
  state, whether a check ran, its actions and any retry it scheduled. `Event`,
  `Enabled` and `Run` describe runs of events as the browser delivers them.
  The lemmas state the debounce rules and the invariant: a pending check timer
  exists only while a player is watched and fires exactly 100 ms after the
  last check.
- `clicker.dfy` (`Content`): the class `Clicker`. Its fields are
  `lastCheckTime`, `checkDeadline` (the source's `checkTimeoutId`) and
  `player`. Its methods update them step by step, as the source does. Each
  handler is proved to make exactly the step its `Schedule` function
  prescribes and to keep the invariant. `Start` is construction, which fails
  when the page has no `ytd-app` element.

Inputs from the environment:

- The clock is an integer `now` in milliseconds, passed to each handler.
- A timer is the time at which it fires. The browser may deliver the check
  timer at any `now` at or after that time (`Enabled`).
- The DOM is given as abstract inputs: the player found (an identity, or
  none), whether `is-watch-page` is set, and which selectors match.
- Clicking and jumping are recorded as a returned sequence of `Action`s.

Behaviour of the code worth knowing when reading the model:

- On a watch page that has no player yet, the app handler looks again after
  200 ms (content.js:54-59). `AppMutation` returns that retry as `retryAt`.
- Construction schedules a zero-delay run of the app handler, not a check
  (content.js:31). `Start` returns it as `appCheckAt`.
- A pending check timer is cancelled only when the watched player changes
  (content.js:42-45). A player mutation while a timer is pending is ignored
  (content.js:66).
- `check` only clicks and jumps. It hides nothing.

## Model

| member | source | states |
|---|---|---|
| Dom.Clicks | content.js:81-94 | trying each selector in turn yields a click on a selector exactly when it is listed and matches, and nothing else; each matching selector is clicked exactly as many times as it is listed, a missing one never |
| Dom.ClickPresent | content.js:81-94 | the loop over the selector list records exactly the clicks of `Clicks` on the list, in list order |
| Dom.CheckActions | content.js:80-105 | a check clicks exactly the listed selectors that match inside the player; it jumps to the end if and only if the ad preview is present, the skip button is absent and a video exists; every action before the last one is a click, so the jump comes after all clicks |
| Dom.CheckClicksInListedOrder | content.js:81-105 | the actions of a check, written out: banner close, then skip, then promo dismiss, each only if it matches in the player, then the jump when its condition holds |
| Schedule.Check | content.js:80-108 | a check runs, performs the actions of `CheckActions`, schedules no retry, sets `lastCheckTime` to now and leaves the pending timer and the player as they were |
| Schedule.PlayerMutation | content.js:65-77 | keeps the player and schedules no retry; with a timer pending it changes nothing; afterwards a check has run or a timer is pending; a check runs only once 100 ms have passed since the last one and stamps now; without a check there are no actions and `lastCheckTime` stays; it keeps the invariant |
| Schedule.CheckTimerFires | content.js:72-75 | the timer callback runs a check with the actions of `CheckActions`, leaves no timer pending, sets `lastCheckTime` to the fire time and keeps the player |
| Schedule.AppMutation | content.js:36-61 | afterwards the watched player is the one found (possibly none); a retry is scheduled, 200 ms later, if and only if no player was found on a watch page; without a player no check runs and no timer is pending; it keeps the invariant |
| Schedule.PendingPlayerMutationIsNoOp | content.js:66 | while a check timer is pending, a player mutation changes no state, runs no check and arms no timer |
| Schedule.PlayerMutationChecksAtOnce | content.js:68-70 | with no timer pending and at least 100 ms elapsed, a player mutation checks at once, sets `lastCheckTime` to now and leaves no timer pending |
| Schedule.PlayerMutationDefers | content.js:68-75 | with no timer pending and less than 100 ms elapsed, a player mutation runs no check and arms one timer; its delay `100 - elapsed` is positive and it fires at `lastCheckTime + 100` |
| Schedule.PlayerMutationNeverDrops | content.js:65-77 | after a player mutation, either a check ran or a check timer is pending |
| Schedule.CheckTimerClearsThenChecks | content.js:72-75 | when the check timer fires, it is cleared and the check runs, so no timer is pending and `lastCheckTime` is the fire time |
| Schedule.AppMutationSamePlayerIsNoOp | content.js:37-38 | seeing the same non-null player again changes nothing and schedules nothing |
| Schedule.AppMutationReplacesPlayer | content.js:40-60 | otherwise the found player (possibly none) is stored and any pending check timer is cancelled; then a found player gets the debounce step, no player on a watch page gets a retry after 200 ms, and otherwise nothing happens; a retry is scheduled exactly in the second case |
| Schedule.StepKeepsInv | content.js:36-108 | every handler keeps the invariant: a pending check timer only while a player is watched, firing exactly 100 ms after the last check |
| Schedule.NoTimerArmedWhilePending | content.js:66-75 | a player mutation or timer firing that finds a timer pending keeps that timer or clears it, and never arms a second one |
| Schedule.DebounceRespected | content.js:65-77 | whichever handler runs a check, it runs at least 100 ms after the previous check and stamps the current time |
| Schedule.NoCheckKeepsLastCheckTime | content.js:36-77 | a handler that runs no check leaves `lastCheckTime` as it was |
| Schedule.RunSpacesChecks | content.js:8-9 | over any run of events the browser can deliver, successive checks are at least 100 ms apart, and the first is at least 100 ms after the last check before the run |
| Schedule.RunEndsAtLatestCheck | content.js:107 | after any run of events, `lastCheckTime` is the time of the run's latest check, or unchanged if none ran |
| Schedule.RunKeepsInv | content.js:36-108 | every run of events the browser can deliver keeps the invariant |
| Schedule.ReachableStatesKeepInv | content.js:13-17 | every state reached from a freshly constructed clicker satisfies the invariant |
| Schedule.NoCheckAfterCheckInBurst | content.js:65-77 | once a check has run in a 100 ms window, later player mutations in that window run no check and leave `lastCheckTime` alone |
| Schedule.BurstRunsAtMostOneCheck | content.js:65-77 | a burst of player mutations within one 100 ms window runs at most one check |
| Schedule.QuietBurstLeavesOneTimer | content.js:65-77 | a non-empty burst that ran no check leaves the deferred check pending, due at `lastCheckTime + 100` |
| Content.Clicker.constructor | content.js:13-17 | a new clicker has `lastCheckTime` 0, no pending check timer and no player |
| Content.Clicker.OnAppMutation | content.js:36-61 | updates the fields exactly as `AppMutation` prescribes, returns its check, actions and retry, and keeps the invariant |
| Content.Clicker.OnPlayerMutation | content.js:65-77 | updates the fields exactly as `PlayerMutation` prescribes, returns its check and actions, and keeps the invariant |
| Content.Clicker.OnCheckTimer | content.js:72-75 | clears the pending timer, then checks, as `CheckTimerFires` prescribes, and keeps the invariant |
| Content.Clicker.Check | content.js:80-108 | performs exactly the actions `CheckActions` gives for the page and sets `lastCheckTime` to now, changing no other field |
| Content.Start | content.js:13-32 | construction fails with "Failed to find ytd-app element" and schedules nothing if and only if there is no `ytd-app`; otherwise it yields a fresh clicker in its initial state and schedules the app handler at once |

## Left out

- MutationObserver creation, `observe`, `disconnect` and their options (content.js:18, 23-27, 41, 49-52). These are browser plumbing. The model only assumes that player mutations arrive while a player is watched (`Enabled`). The misspelled `atributeFilter` at content.js:26 only changes which app mutations the browser reports, and the model lets an app mutation arrive at any time.
- `window.setTimeout`, `clearTimeout` and `new Date().getTime()`. The clock is the integer `now`. The check timer is its fire time. Cancelling it is clearing that field. Timestamps are unbounded integers, not JavaScript doubles, which are exact for millisecond times anyway.
- The clock is read twice in one player mutation (content.js:68 and 107). The model uses one `now` per event, as if the handler took no time.
- The retry timer of content.js:59 is not tracked, as in the source. It is returned as `retryAt`, and its firing is one more app mutation event.
- The zero-delay app check of the constructor (content.js:31) is returned by `Start` as `appCheckAt`. It is not a field.
- `querySelector`, `el.click()` and `console.log`. Queries are the `Page` snapshot and clicks are recorded `Action`s. Log lines are not modelled.
- `video.currentTime = video.duration` (content.js:103). These are floating-point media properties. Only the fact that the jump happened is recorded.
- The `DOMContentLoaded` bootstrap (content.js:111).
- Content.Clicker.Check: requires a watched player. The source would throw a TypeError at content.js:89 without one, but no caller can reach it: the timer callback only exists while a player is watched (the invariant), `onAppMutation` reaches `check` only after its `if (this.player)` test (content.js:47), and `onPlayerMutation` itself does not test for a player (content.js:70) but is reached only through the player observer, which reports only while a player is observed, or from that same test at content.js:47-53.
- The check timer and the clock are assumed to agree: a timer fires at a `now`, on the same clock that stamps `lastCheckTime`, at or after its deadline. In the browser the timer runs on a monotonic clock while `lastCheckTime` is wall-clock time from `new Date().getTime()` (content.js:68, 107). If the wall clock steps backwards, the source can check earlier than `lastCheckTime + 100` in wall-clock time, which `DebounceRespected` and `RunSpacesChecks` do not cover.
