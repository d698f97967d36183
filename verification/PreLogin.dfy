/** The pre-login controller: a countdown towards automatic handoff, and the one action it may take. */
module PreLogin {
  import opened Common
  import opened Readiness

  datatype UiState = WaitingForDaemon | StartingUp | Applying | Succeeded | FailedStart | Degraded | Unavailable
    | HandingOff | PoweringDown

  datatype Action = Handoff | Reboot | PowerOff | Unsupported

  datatype Systemd = Systemd(available: bool, active: string, text: string)

  datatype Observation = Observation(verified: Option<PreLoginStatus>, systemd: Systemd)

  const SECOND := 1_000_000_000
  const COUNTDOWN := 5

  /** duration_cast to seconds: towards zero. */
  function Seconds(ticks: int): int {
    if ticks >= 0 then ticks / SECOND else -((-ticks) / SECOND)
  }

  // ----- what a poll sees

  /** One poll: what was read, whether the screen was ready, and the clock if it was looked at. */
  datatype Sight = Sight(observation: Observation, guiReady: bool, now: int)

  predicate Eligible(s: Sight, boot: string) {
    s.observation.verified.Some? && MayAutoHandoff(s.observation.verified.value, boot) && s.guiReady
  }

  function Daemon(s: Sight): int {
    if s.observation.verified.Some? then s.observation.verified.value.daemonPid else 0
  }

  /** All polls from i on were eligible, with the daemon of poll i. */
  ghost predicate EligibleSince(sights: seq<Sight>, boot: string, i: int) {
    0 <= i < |sights| && forall k :: i <= k < |sights| ==>
        Eligible(sights[k], boot) && Daemon(sights[k]) == Daemon(sights[i])
  }

  /** The first poll of the current stretch of eligible polls of one daemon. */
  ghost predicate StretchStart(sights: seq<Sight>, boot: string, i: int) {
    EligibleSince(sights, boot, i) && forall j :: 0 <= j < i ==> !EligibleSince(sights, boot, j)
  }

  ghost predicate NoStretch(sights: seq<Sight>, boot: string) {
    forall i :: !EligibleSince(sights, boot, i)
  }

  ghost predicate MonotoneClock(sights: seq<Sight>) {
    forall i, j :: 0 <= i < j < |sights| ==> sights[i].now <= sights[j].now
  }

  /** The polls justify an automatic handoff: five seconds of nothing but eligible ones. */
  ghost predicate Justified(sights: seq<Sight>, boot: string) {
    exists i :: EligibleSince(sights, boot, i) && sights[|sights| - 1].now - sights[i].now >= COUNTDOWN * SECOND
  }

  function ShownState(o: Observation, boot: string): UiState {
    if o.verified.Some? && o.verified.value.bootId == boot then
      var s := o.verified.value;
      if s.access.state == "DEGRADED" then Degraded
      else if s.completed && !s.applyOk then FailedStart
      else if s.completed && s.applyOk then Succeeded
      else if s.started then Applying
      else StartingUp
    else if o.systemd.available then
      if o.systemd.active == "inactive" then WaitingForDaemon
      else if o.systemd.active == "activating" then
          (if o.systemd.text == "Applying startup policies" then Applying else StartingUp)
      else Unavailable
    else Unavailable
  }

  /** Which state is shown: the daemon's own word when it speaks for this boot, systemd's otherwise. */
  lemma ShownExactly(o: Observation, boot: string)
    ensures var own := o.verified.Some? && o.verified.value.bootId == boot;
            var shown := ShownState(o, boot);
            && (shown == Degraded <==> own && o.verified.value.access.state == "DEGRADED")
            && (shown == FailedStart <==>
                  own && o.verified.value.access.state != "DEGRADED" && o.verified.value.completed &&
                    !o.verified.value.applyOk)
            && (shown == Succeeded <==>
                  own && o.verified.value.access.state != "DEGRADED" && o.verified.value.completed &&
                    o.verified.value.applyOk)
            && (shown == WaitingForDaemon <==> !own && o.systemd.available && o.systemd.active == "inactive")
            && (shown == Unavailable <==>
                  !own && !(o.systemd.available &&
                    (o.systemd.active == "inactive" || o.systemd.active == "activating")))
            && (shown == Applying <==>
                  if own then
                    o.verified.value.access.state != "DEGRADED" && !o.verified.value.completed &&
                      o.verified.value.started
                  else
                    o.systemd.available && o.systemd.active == "activating" &&
                    o.systemd.text == "Applying startup policies")
            && shown != HandingOff && shown != PoweringDown
  {
    assert "DEGRADED" != "READY" && "inactive" != "activating";
  }

  /** The countdown runs only while success is shown. */
  lemma EligibleShowsSuccess(s: Sight, boot: string)
    requires Eligible(s, boot)
    ensures ShownState(s.observation, boot) == Succeeded
    ensures s.guiReady && s.observation.verified.Some? && s.observation.verified.value.bootId == boot
  {
    hide Validate, BootIdShape;
    assert "READY" != "DEGRADED";
  }

  lemma RestShown(sights: seq<Sight>, boot: string, i: int, elapsed: int)
    requires StretchStart(sights, boot, i) && i < |sights| && sights[|sights| - 1].now >= sights[i].now
    requires elapsed == Seconds(sights[|sights| - 1].now - sights[i].now)
    ensures ShowsRest(sights, boot, COUNTDOWN - elapsed)
  {
    hide StretchStart;
  }

  lemma SecondsLaws(ticks: int)
    requires ticks >= 0
    ensures Seconds(ticks) >= 0
    ensures Seconds(ticks) >= COUNTDOWN <==> ticks >= COUNTDOWN * SECOND
  {
  }

  /** The countdown runs from the first poll of the current stretch, and only during one. */
  ghost predicate CountdownSound(started: Option<int>, daemon: int, sights: seq<Sight>, boot: string) {
    match started
    case None => NoStretch(sights, boot)
    case Some(start) => exists i :: StartsAt(sights, boot, i, start, daemon)
  }

  ghost predicate StartsAt(sights: seq<Sight>, boot: string, i: int, start: int, daemon: int) {
    StretchStart(sights, boot, i) && sights[i].now == start && Daemon(sights[i]) == daemon
  }

  /** What is left of the countdown, in whole seconds since the first poll of the stretch. */
  ghost predicate ShowsRest(sights: seq<Sight>, boot: string, rest: int) {
    exists i :: StretchStart(sights, boot, i) && i < |sights| &&
      rest == COUNTDOWN - (sights[|sights| - 1].now - sights[i].now) / SECOND
  }

  /** At most one action ever; success only after a proven cleanup and a done power action. */
  ghost predicate ActionSound(finished: bool, actions: seq<Action>, exitCode: int, cleaned: bool, powered: bool) {
    && |actions| == (if finished then 1 else 0)
    && (exitCode == 0 || exitCode == 1)
    && (exitCode == 0 ==> finished && cleaned && actions[0] != Unsupported && (actions[0] != Handoff ==> powered))
  }

  class Controller {
    const bootId: string
    var countdownStarted: Option<int>
    var countdownSeconds: Option<int>
    var countdownDaemon: int
    var state: UiState
    var requested: bool
    var finished: bool
    var exitCode: int
    ghost var sights: seq<Sight>
    ghost var actions: seq<Action>
    ghost var automatic: bool
    ghost var cleaned: bool
    ghost var powered: bool

    ghost predicate Valid()
      reads this
    {
      && requested == finished && ActionSound(finished, actions, exitCode, cleaned, powered)
      && CountdownSound(countdownStarted, countdownDaemon, sights, bootId)
      && (automatic ==> finished && actions == [Handoff] && Justified(sights, bootId))
    }

    constructor (boot: string)
      ensures Valid() && bootId == boot && sights == [] && actions == [] && exitCode == 1 && !finished
    {
      bootId := boot;
      countdownStarted, countdownSeconds, countdownDaemon := None, None, 0;
      state, requested, finished, exitCode := WaitingForDaemon, false, false, 1;
      sights, actions, automatic, cleaned, powered := [], [], false, false, false;
    }

    method Request(action: Action, cleanupOk: bool, powerOk: bool)
      requires Valid()
      modifies `state, `requested, `finished, `exitCode, `actions, `cleaned, `powered
      ensures Valid() && finished
      ensures old(finished) ==> actions == old(actions) && exitCode == old(exitCode) && state == old(state)
      ensures !old(finished) ==> actions == [action]
      ensures !old(finished) ==>
                (exitCode == 0 <==> action != Unsupported && cleanupOk && (action == Handoff || powerOk))
      ensures !old(finished) ==>
                state == match action
                         case Handoff => HandingOff
                         case Reboot => PoweringDown
                         case PowerOff => PoweringDown
                         case Unsupported => old(state)
    {
      hide Justified, CountdownSound;
      if requested || finished {
        return;
      }
      requested := true;
      actions := [action];
      if action != Handoff && action != Reboot && action != PowerOff {
        finished := true;
        return;
      }
      state := if action == Handoff then HandingOff else PoweringDown;
      if !cleanupOk {
        finished := true;
        return;
      }
      cleaned := true;
      if action != Handoff {
        if !powerOk {
          finished := true;
          return;
        }
        powered := true;
      }
      exitCode := 0;
      finished := true;
    }

    /** Starts, restarts or continues the countdown at an eligible poll. */
    method Track(s: Sight, ghost before: seq<Sight>) returns (ghost i: int)
      requires Eligible(s, bootId) && CountdownSound(countdownStarted, countdownDaemon, before, bootId)
      modifies `countdownStarted, `countdownDaemon
      ensures countdownStarted.Some? && StartsAt(before + [s], bootId, i, countdownStarted.value, countdownDaemon)
    {
      hide Eligible, StretchStart, NoStretch;
      i := |before|;
      assert (before + [s])[i] == s;
      var pid := Daemon(s);
      if countdownStarted.None? {
        StretchBegins(before, s, bootId);
        countdownStarted, countdownDaemon := Some(s.now), pid;
      } else {
        ghost var k :| StartsAt(before, bootId, k, countdownStarted.value, countdownDaemon);
        StretchIndex(before, bootId, k);
        assert (before + [s])[k] == before[k];
        if countdownDaemon != pid {
          StretchRestarts(before, s, bootId, k);
          countdownStarted, countdownDaemon := Some(s.now), pid;
        } else {
          StretchContinues(before, s, bootId, k);
          i := k;
        }
      }
    }

    /** One poll; it hands off exactly when the polls so far justify it. */
    method Poll(s: Sight, cleanupOk: bool)
      requires Valid() && MonotoneClock(sights + [s])
      modifies this
      ensures Valid()
      ensures old(finished) ==>
                sights == old(sights) && actions == old(actions) && exitCode == old(exitCode) && state == old(state)
      ensures !old(finished) ==> sights == old(sights) + [s]
      ensures !old(finished) ==> (finished <==> Justified(sights, bootId))
      ensures finished && !old(finished) ==>
                automatic && actions == [Handoff] && state == HandingOff && (exitCode == 0 <==> cleanupOk)
      ensures !finished ==> state == ShownState(s.observation, bootId)
      ensures !finished ==> countdownSeconds.Some? == Eligible(s, bootId)
      ensures !finished && countdownSeconds.Some? ==>
                1 <= countdownSeconds.value <= COUNTDOWN && ShowsRest(sights, bootId, countdownSeconds.value)
    {
      HandoffNamesBoot(s, bootId);
      hide MayAutoHandoff, ShownState, StretchStart, NoStretch, Justified, Seconds;
      if requested || finished {
        return;
      }
      ghost var before := sights;
      sights := sights + [s];
      state := ShownState(s.observation, bootId);
      var verified := s.observation.verified;
      if verified.Some? && verified.value.bootId != bootId {
        verified := None;
      }
      var autoEligible := verified.Some? && MayAutoHandoff(verified.value, bootId) && s.guiReady;
      assert autoEligible == Eligible(s, bootId);
      hide Eligible;
      if !autoEligible {
        countdownStarted, countdownSeconds, countdownDaemon := None, None, 0;
        StretchEnds(before, s, bootId);
        return;
      }
      ghost var i := Track(s, before);
      JustifiedExactly(sights, bootId, i);
      var elapsed := Seconds(s.now - countdownStarted.value);
      SecondsLaws(s.now - countdownStarted.value);
      if elapsed >= COUNTDOWN {
        countdownSeconds := None;
        Request(Handoff, cleanupOk, false);
        automatic := true;
      } else {
        countdownSeconds := Some(COUNTDOWN - elapsed);
        StretchIndex(sights, bootId, i);
        RestShown(sights, bootId, i, elapsed);
      }
    }
  }

  lemma HandoffNamesBoot(s: Sight, boot: string)
    ensures Eligible(s, boot) ==> s.observation.verified.value.bootId == boot
  {
    hide Validate, BootIdShape;
  }

  // ----- stretches of eligible polls

  lemma StretchIndex(sights: seq<Sight>, boot: string, i: int)
    requires StretchStart(sights, boot, i)
    ensures 0 <= i < |sights|
  {
  }

  lemma EligibleSnoc(sights: seq<Sight>, s: Sight, boot: string, j: int)
    requires 0 <= j < |sights|
    ensures EligibleSince(sights + [s], boot, j) <==>
            EligibleSince(sights, boot, j) && Eligible(s, boot) && Daemon(s) == Daemon(sights[j])
  {
    hide Eligible;
    var all := sights + [s];
    assert all[|sights|] == s && forall k :: 0 <= k < |sights| ==> all[k] == sights[k];
  }

  lemma EligibleLast(sights: seq<Sight>, s: Sight, boot: string)
    ensures EligibleSince(sights + [s], boot, |sights|) <==> Eligible(s, boot)
  {
    hide Eligible;
    assert (sights + [s])[|sights|] == s;
  }

  /** An ineligible poll ends any stretch. */
  lemma StretchEnds(sights: seq<Sight>, s: Sight, boot: string)
    requires !Eligible(s, boot)
    ensures NoStretch(sights + [s], boot) && !Justified(sights + [s], boot)
  {
    hide Eligible;
    forall i ensures !EligibleSince(sights + [s], boot, i) {
      EligibleLast(sights, s, boot);
      if 0 <= i < |sights| {
        EligibleSnoc(sights, s, boot, i);
      }
    }
  }

  lemma StretchBegins(sights: seq<Sight>, s: Sight, boot: string)
    requires NoStretch(sights, boot) && Eligible(s, boot)
    ensures StretchStart(sights + [s], boot, |sights|)
  {
    hide Eligible, EligibleSince;
    EligibleLast(sights, s, boot);
    forall j | 0 <= j < |sights| ensures !EligibleSince(sights + [s], boot, j) {
      EligibleSnoc(sights, s, boot, j);
    }
  }

  /** Another daemon starts a new stretch. */
  lemma StretchRestarts(sights: seq<Sight>, s: Sight, boot: string, i: int)
    requires StretchStart(sights, boot, i) && Eligible(s, boot) && Daemon(s) != Daemon(sights[i])
    ensures StretchStart(sights + [s], boot, |sights|)
  {
    var n := |sights|;
    assert Daemon(sights[n - 1]) == Daemon(sights[i]);
    assert forall j :: EligibleSince(sights, boot, j) ==> Daemon(sights[n - 1]) == Daemon(sights[j]);
    EligibleLast(sights, s, boot);
    hide Eligible, EligibleSince;
    forall j | 0 <= j < n ensures !EligibleSince(sights + [s], boot, j) {
      EligibleSnoc(sights, s, boot, j);
    }
  }

  lemma StretchContinues(sights: seq<Sight>, s: Sight, boot: string, i: int)
    requires StretchStart(sights, boot, i) && Eligible(s, boot) && Daemon(s) == Daemon(sights[i])
    ensures StretchStart(sights + [s], boot, i)
  {
    StretchIndex(sights, boot, i);
    hide Eligible, EligibleSince;
    EligibleSnoc(sights, s, boot, i);
    forall j | 0 <= j < i ensures !EligibleSince(sights + [s], boot, j) {
      EligibleSnoc(sights, s, boot, j);
    }
  }

  /** With a monotone clock the first poll of the stretch decides. */
  lemma JustifiedExactly(sights: seq<Sight>, boot: string, i: int)
    requires StretchStart(sights, boot, i) && MonotoneClock(sights)
    ensures Justified(sights, boot) <==> sights[|sights| - 1].now - sights[i].now >= COUNTDOWN * SECOND
    ensures sights[|sights| - 1].now >= sights[i].now
  {
    hide Eligible;
    if Justified(sights, boot) {
      var j :| EligibleSince(sights, boot, j) && sights[|sights| - 1].now - sights[j].now >= COUNTDOWN * SECOND;
      assert i <= j;
      assert i < j ==> sights[i].now <= sights[j].now;
    }
  }
}
