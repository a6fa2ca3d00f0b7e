/**
 * The scheduling rules of the clicker as a state machine over values: the
 * state a `Clicker` keeps, one step function per event it handles, runs of
 * events, and the properties the debounce is there to guarantee.
 */
module Schedule {
  import opened Wrappers
  import opened Dom

  /** Delay before looking for the player again when it is missing. */
  const FindPlayerRetryMs: int := 200
  /** Minimum duration between evaluations of the page caused by mutations. */
  const MutationDebounceMs: int := 100

  /**
   * The fields of a `Clicker`: when the last check ran, the pending check
   * timer (as the time at which it fires), and the player being watched.
   */
  datatype Snapshot = Snapshot(lastCheckTime: int, checkDeadline: Option<int>, player: Option<PlayerId>)

  /** The state right after construction. */
  const Initial: Snapshot := Snapshot(0, None, None)

  /**
   * The result of handling one event: the new state, whether `check` ran, what
   * it did to the page, and when an untracked retry of the app handler was
   * scheduled, if it was.
   */
  datatype Step = Step(state: Snapshot, checkRan: bool, actions: seq<Action>, retryAt: Option<int>)

  /**
   * The invariant of a clicker: a pending check timer exists only while a
   * player is watched, and it fires one debounce window after the last check.
   */
  predicate Inv(s: Snapshot)
  {
    s.checkDeadline.Some? ==>
      s.player.Some? && s.checkDeadline.value == s.lastCheckTime + MutationDebounceMs
  }

  /** `check`: acts on the page and stamps the time of the check. */
  function Check(s: Snapshot, now: int, page: Page): (r: Step)
    requires s.player.Some?
    ensures r.checkRan && r.actions == CheckActions(page) && r.retryAt.None?
    ensures r.state.lastCheckTime == now
    ensures r.state.checkDeadline == s.checkDeadline && r.state.player == s.player
  {
    Step(s.(lastCheckTime := now), true, CheckActions(page), None)
  }

  /** `onPlayerMutation`: do nothing while queued, check at once, or defer. */
  function PlayerMutation(s: Snapshot, now: int, page: Page): (r: Step)
    requires s.player.Some?
    ensures r.state.player == s.player && r.retryAt.None?
    ensures s.checkDeadline.Some? ==> r.state == s && !r.checkRan
    ensures r.checkRan || r.state.checkDeadline.Some?
    ensures r.checkRan ==> now >= s.lastCheckTime + MutationDebounceMs && r.state.lastCheckTime == now
    ensures !r.checkRan ==> r.actions == [] && r.state.lastCheckTime == s.lastCheckTime
    ensures Inv(s) ==> Inv(r.state)
  {
    if s.checkDeadline.Some? then Step(s, false, [], None)
    else
      var elapsed := now - s.lastCheckTime;
      if elapsed >= MutationDebounceMs then Check(s, now, page)
      else Step(s.(checkDeadline := Some(now + (MutationDebounceMs - elapsed))), false, [], None)
  }

  /** The callback of the check timer: clear the pending timer, then check. */
  function CheckTimerFires(s: Snapshot, now: int, page: Page): (r: Step)
    requires s.player.Some?
    ensures r.checkRan && r.actions == CheckActions(page) && r.retryAt.None?
    ensures r.state == Snapshot(now, None, s.player)
  {
    Check(s.(checkDeadline := None), now, page)
  }

  /**
   * `onAppMutation`, given the `ytd-player` element found in the document (if
   * any) and whether the app carries the `is-watch-page` attribute.
   */
  function AppMutation(s: Snapshot, now: int, found: Option<PlayerId>, isWatchPage: bool, page: Page): (r: Step)
    ensures r.state.player == found
    ensures r.retryAt.Some? <==> found.None? && isWatchPage
    ensures r.retryAt.Some? ==> r.retryAt.value == now + FindPlayerRetryMs
    ensures found.None? ==> !r.checkRan && r.actions == [] && r.state.checkDeadline.None?
    ensures Inv(s) ==> Inv(r.state)
  {
    if found.Some? && s.player == found then Step(s, false, [], None)
    else
      var cleared := s.(player := found, checkDeadline := None);
      if found.Some? then PlayerMutation(cleared, now, page)
      else if isWatchPage then Step(cleared, false, [], Some(now + FindPlayerRetryMs))
      else Step(cleared, false, [], None)
  }

  /** The events the browser delivers to a clicker. */
  datatype Event =
    | AppMutationEvent(now: int, found: Option<PlayerId>, isWatchPage: bool, page: Page)
    | PlayerMutationEvent(now: int, page: Page)
    | CheckTimerEvent(now: int, page: Page)

  /**
   * When the browser can deliver an event: player mutations only while a
   * player is observed, the check timer only while it is armed and not before
   * its deadline.
   */
  predicate Enabled(s: Snapshot, e: Event)
  {
    match e
    case AppMutationEvent(_, _, _, _) => true
    case PlayerMutationEvent(_, _) => s.player.Some?
    case CheckTimerEvent(now, _) => s.checkDeadline.Some? && s.player.Some? && now >= s.checkDeadline.value
  }

  function Apply(s: Snapshot, e: Event): Step
    requires Enabled(s, e)
  {
    match e
    case AppMutationEvent(now, found, isWatchPage, page) => AppMutation(s, now, found, isWatchPage, page)
    case PlayerMutationEvent(now, page) => PlayerMutation(s, now, page)
    case CheckTimerEvent(now, page) => CheckTimerFires(s, now, page)
  }

  /** Every event of `evs` can be delivered in the state its predecessors leave. */
  predicate ValidTrace(s: Snapshot, evs: seq<Event>)
    decreases |evs|
  {
    evs == [] || (Enabled(s, evs[0]) && ValidTrace(Apply(s, evs[0]).state, evs[1..]))
  }

  /** The state after a run of events, the times at which checks ran, and their actions. */
  datatype Outcome = Outcome(state: Snapshot, checkTimes: seq<int>, actions: seq<Action>)

  function Run(s: Snapshot, evs: seq<Event>): Outcome
    requires ValidTrace(s, evs)
    decreases |evs|
  {
    if evs == [] then Outcome(s, [], [])
    else
      var step := Apply(s, evs[0]);
      var rest := Run(step.state, evs[1..]);
      Outcome(rest.state, (if step.checkRan then [evs[0].now] else []) + rest.checkTimes, step.actions + rest.actions)
  }

  // ---- onPlayerMutation ----

  /** While a check timer is pending, a player mutation changes nothing. */
  lemma PendingPlayerMutationIsNoOp(s: Snapshot, now: int, page: Page)
    requires s.player.Some? && s.checkDeadline.Some?
    ensures PlayerMutation(s, now, page) == Step(s, false, [], None)
  {
  }

  /**
   * With no timer pending and a full debounce window elapsed, a player
   * mutation checks at once, stamps `now` and leaves no timer pending.
   */
  lemma PlayerMutationChecksAtOnce(s: Snapshot, now: int, page: Page)
    requires s.player.Some? && s.checkDeadline.None? && now - s.lastCheckTime >= MutationDebounceMs
    ensures var r := PlayerMutation(s, now, page);
      && r.checkRan && r.actions == CheckActions(page)
      && r.state == Snapshot(now, None, s.player)
  {
  }

  /**
   * With no timer pending and less than a window elapsed, a player mutation
   * runs nothing and arms one timer whose delay is positive and which fires
   * exactly one window after the last check.
   */
  lemma PlayerMutationDefers(s: Snapshot, now: int, page: Page)
    requires s.player.Some? && s.checkDeadline.None? && now - s.lastCheckTime < MutationDebounceMs
    ensures var r := PlayerMutation(s, now, page);
      && !r.checkRan && r.actions == []
      && var delay := MutationDebounceMs - (now - s.lastCheckTime);
      && delay > 0
      && r.state == Snapshot(s.lastCheckTime, Some(now + delay), s.player)
      && r.state.checkDeadline == Some(s.lastCheckTime + MutationDebounceMs)
  {
  }

  /** A player mutation never loses a check: it runs one or one is pending. */
  lemma PlayerMutationNeverDrops(s: Snapshot, now: int, page: Page)
    requires s.player.Some?
    ensures PlayerMutation(s, now, page).checkRan || PlayerMutation(s, now, page).state.checkDeadline.Some?
  {
  }

  // ---- the check timer ----

  /**
   * When the check timer fires, the pending timer is cleared and the check
   * runs at the fire time: no timer is left and `lastCheckTime` is that time.
   */
  lemma CheckTimerClearsThenChecks(s: Snapshot, now: int, page: Page)
    requires s.player.Some? && s.checkDeadline.Some?
    ensures var r := CheckTimerFires(s, now, page);
      && r.checkRan && r.actions == CheckActions(page)
      && r.state == Snapshot(now, None, s.player)
  {
  }

  // ---- onAppMutation ----

  /** Seeing the same non-null player again changes nothing. */
  lemma AppMutationSamePlayerIsNoOp(s: Snapshot, now: int, found: Option<PlayerId>, isWatchPage: bool, page: Page)
    requires found.Some? && s.player == found
    ensures AppMutation(s, now, found, isWatchPage, page) == Step(s, false, [], None)
  {
  }

  /**
   * Otherwise the found player (possibly none) replaces the watched one, any
   * pending check timer is cancelled, and exactly one of three things follows:
   * the debounce step for the new player, a retry after 200 ms on a watch
   * page without a player, or nothing.
   */
  lemma AppMutationReplacesPlayer(s: Snapshot, now: int, found: Option<PlayerId>, isWatchPage: bool, page: Page)
    requires !(found.Some? && s.player == found)
    ensures var r := AppMutation(s, now, found, isWatchPage, page);
      var cleared := Snapshot(s.lastCheckTime, None, found);
      && r.state.player == found
      && (found.Some? ==> r == PlayerMutation(cleared, now, page))
      && (found.None? && isWatchPage ==> r == Step(cleared, false, [], Some(now + FindPlayerRetryMs)))
      && (found.None? && !isWatchPage ==> r == Step(cleared, false, [], None))
      && (r.retryAt.Some? <==> found.None? && isWatchPage)
      && (found.None? ==> !r.checkRan && r.state.checkDeadline.None?)
  {
  }

  // ---- every step ----

  /** Every step keeps the invariant. */
  lemma StepKeepsInv(s: Snapshot, e: Event)
    requires Inv(s) && Enabled(s, e)
    ensures Inv(Apply(s, e).state)
  {
  }

  /**
   * A check timer is only ever armed when none is pending: a step that starts
   * with a pending timer keeps it, clears it (the timer fired), or is an app
   * mutation that cancels it before anything else.
   */
  lemma NoTimerArmedWhilePending(s: Snapshot, e: Event)
    requires Inv(s) && Enabled(s, e) && s.checkDeadline.Some? && !e.AppMutationEvent?
    ensures Apply(s, e).state.checkDeadline in {s.checkDeadline, None}
  {
  }

  /**
   * Whatever the event, a check runs only once a full debounce window has
   * passed since the last one, and it stamps the current time.
   */
  lemma DebounceRespected(s: Snapshot, e: Event)
    requires Inv(s) && Enabled(s, e) && Apply(s, e).checkRan
    ensures e.now >= s.lastCheckTime + MutationDebounceMs
    ensures Apply(s, e).state.lastCheckTime == e.now
  {
  }

  // ---- runs of events ----

  /** Every run of events keeps the invariant. */
  lemma {:induction false} RunKeepsInv(s: Snapshot, evs: seq<Event>)
    requires Inv(s) && ValidTrace(s, evs)
    ensures Inv(Run(s, evs).state)
    decreases |evs|
  {
    if evs != [] {
      StepKeepsInv(s, evs[0]);
      RunKeepsInv(Apply(s, evs[0]).state, evs[1..]);
    }
  }

  /** A clicker keeps the invariant whatever the browser delivers to it. */
  lemma ReachableStatesKeepInv(evs: seq<Event>)
    requires ValidTrace(Initial, evs)
    ensures Inv(Run(Initial, evs).state)
  {
    RunKeepsInv(Initial, evs);
  }

  /** A burst: player mutations only, all within one window starting at `from`. */
  predicate MutationsWithin(evs: seq<Event>, from: int)
  {
    forall i :: 0 <= i < |evs| ==> evs[i].PlayerMutationEvent? && from <= evs[i].now < from + MutationDebounceMs
  }

  /** After a check at or after `from`, the rest of a burst runs no check. */
  lemma {:induction false} NoCheckAfterCheckInBurst(s: Snapshot, evs: seq<Event>, from: int)
    requires ValidTrace(s, evs) && MutationsWithin(evs, from) && s.lastCheckTime >= from
    ensures |Run(s, evs).checkTimes| == 0
    ensures Run(s, evs).state.lastCheckTime == s.lastCheckTime
    decreases |evs|
  {
    if evs != [] {
      assert MutationsWithin(evs[1..], from) by {
        forall i | 0 <= i < |evs[1..]| ensures evs[1..][i] == evs[i + 1] { }
      }
      NoCheckAfterCheckInBurst(Apply(s, evs[0]).state, evs[1..], from);
    }
  }

  /** A burst of player mutations within one debounce window runs at most one check. */
  lemma {:induction false} BurstRunsAtMostOneCheck(s: Snapshot, evs: seq<Event>, from: int)
    requires ValidTrace(s, evs) && MutationsWithin(evs, from)
    ensures |Run(s, evs).checkTimes| <= 1
    decreases |evs|
  {
    if evs != [] {
      var step := Apply(s, evs[0]);
      assert MutationsWithin(evs[1..], from) by {
        forall i | 0 <= i < |evs[1..]| ensures evs[1..][i] == evs[i + 1] { }
      }
      if step.checkRan {
        NoCheckAfterCheckInBurst(step.state, evs[1..], from);
      } else {
        BurstRunsAtMostOneCheck(step.state, evs[1..], from);
      }
    }
  }

  /**
   * A non-empty burst that ran no check leaves the deferred check pending,
   * due one window after the last check.
   */
  lemma {:induction false} QuietBurstLeavesOneTimer(s: Snapshot, evs: seq<Event>, from: int)
    requires Inv(s) && ValidTrace(s, evs) && MutationsWithin(evs, from)
    requires evs != [] && |Run(s, evs).checkTimes| == 0
    ensures Run(s, evs).state.lastCheckTime == s.lastCheckTime
    ensures Run(s, evs).state.checkDeadline == Some(s.lastCheckTime + MutationDebounceMs)
    decreases |evs|
  {
    var step := Apply(s, evs[0]);
    assert MutationsWithin(evs[1..], from) by {
      forall i | 0 <= i < |evs[1..]| ensures evs[1..][i] == evs[i + 1] { }
    }
    StepKeepsInv(s, evs[0]);
    if |evs| > 1 {
      QuietBurstLeavesOneTimer(step.state, evs[1..], from);
    }
  }

  /**
   * Check times that each come at least one debounce window after the one
   * before, the first one after a check at `last`.
   */
  predicate SpacedAfter(last: int, times: seq<int>)
  {
    && (|times| > 0 ==> times[0] >= last + MutationDebounceMs)
    && forall i :: 0 < i < |times| ==> times[i] >= times[i - 1] + MutationDebounceMs
  }

  /** A check a window after `last`, followed by checks spaced after it, is spaced after `last`. */
  lemma SpacedAfterCons(last: int, now: int, times: seq<int>)
    requires now >= last + MutationDebounceMs && SpacedAfter(now, times)
    ensures SpacedAfter(last, [now] + times)
  {
    var all := [now] + times;
    forall i | 0 < i < |all|
      ensures all[i] >= all[i - 1] + MutationDebounceMs
    {
      assert all[i] == times[i - 1];
      if i > 1 {
        assert all[i - 1] == times[i - 2];
      }
    }
  }

  /** A step that runs no check leaves `lastCheckTime` as it was. */
  lemma NoCheckKeepsLastCheckTime(s: Snapshot, e: Event)
    requires Enabled(s, e) && !Apply(s, e).checkRan
    ensures Apply(s, e).state.lastCheckTime == s.lastCheckTime
  {
  }

  /** The check times of a run: those of its first step, then those of the rest. */
  lemma RunCheckTimes(s: Snapshot, evs: seq<Event>)
    requires evs != [] && ValidTrace(s, evs)
    ensures var step := Apply(s, evs[0]);
      Run(s, evs).checkTimes == (if step.checkRan then [evs[0].now] else []) + Run(step.state, evs[1..]).checkTimes
      && Run(s, evs).state == Run(step.state, evs[1..]).state
  {
  }

  /**
   * Over any run of events, successive checks are at least one debounce
   * window apart, and the first one comes at least a window after the last
   * check before the run.
   */
  lemma {:induction false} RunSpacesChecks(s: Snapshot, evs: seq<Event>)
    requires Inv(s) && ValidTrace(s, evs)
    ensures SpacedAfter(s.lastCheckTime, Run(s, evs).checkTimes)
    decreases |evs|
  {
    if evs != [] {
      var step := Apply(s, evs[0]);
      var rest := Run(step.state, evs[1..]);
      StepKeepsInv(s, evs[0]);
      RunSpacesChecks(step.state, evs[1..]);
      RunCheckTimes(s, evs);
      if step.checkRan {
        DebounceRespected(s, evs[0]);
        SpacedAfterCons(s.lastCheckTime, evs[0].now, rest.checkTimes);
      } else {
        NoCheckKeepsLastCheckTime(s, evs[0]);
        assert [] + rest.checkTimes == rest.checkTimes;
      }
    }
  }

  /** After any run of events, `lastCheckTime` is the time of the run's latest check, if it had one. */
  lemma {:induction false} RunEndsAtLatestCheck(s: Snapshot, evs: seq<Event>)
    requires Inv(s) && ValidTrace(s, evs)
    ensures var times := Run(s, evs).checkTimes;
      Run(s, evs).state.lastCheckTime == if times == [] then s.lastCheckTime else times[|times| - 1]
    decreases |evs|
  {
    if evs != [] {
      var step := Apply(s, evs[0]);
      var rest := Run(step.state, evs[1..]);
      StepKeepsInv(s, evs[0]);
      RunEndsAtLatestCheck(step.state, evs[1..]);
      RunCheckTimes(s, evs);
      if step.checkRan {
        DebounceRespected(s, evs[0]);
      } else {
        NoCheckKeepsLastCheckTime(s, evs[0]);
        assert [] + rest.checkTimes == rest.checkTimes;
      }
    }
  }
}
