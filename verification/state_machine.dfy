/** The sampler's sequential logic: the state store record, the change
    detection of the polling loop, transitions and the LED writes they
    trigger, and the read-only view the HTTP handlers get.

    The sampling thread, its lock and its stop event are abstracted away: each
    poll is one atomic step, and the loop runs over a finite sequence of polls.
    The clock reading `time.time()` would take during a transition is part of
    each poll. */
module StateMachine {
  import opened Wrappers
  import opened Leds

  /** A wall-clock reading; no ordering between readings is assumed. */
  type Time = real

  /** The constructor arguments of the state machine that the logic uses. */
  datatype Config = Config(
    openLeds: Option<seq<char>>,
    closedLeds: Option<seq<char>>,
    openState: string,
    closedState: string)

  /** An observable effect of the sampler. */
  datatype Effect =
    | Announced(from: Option<string>, to: Option<string>)  // the "Transition: a -> b" log line
    | Led(write: LedWrite)

  /** The state store (`state`, `last_transition`) plus every effect so far. */
  datatype Machine = Machine(state: Option<bool>, lastTransition: Option<Time>, effects: seq<Effect>)

  /** One iteration of the loop: the pin read `pressed` with the clock at `now`,
      or a read that raised. */
  datatype Poll = Tick(pressed: bool, now: Time) | ReadFault

  /** Where the loop ended: `faulted` when a read raised, which terminates the
      process and leaves the store as it was. */
  datatype Session = Session(machine: Machine, faulted: bool)

  /** The store's invariant: the state and the timestamp are set together. */
  predicate Consistent(m: Machine) {
    m.state.None? <==> m.lastTransition.None?
  }

  /** `map_state`: the label published for a raw state; note that `true` gets
      the open label. */
  function MapState(cfg: Config, s: Option<bool>): (r: Option<string>)
    ensures r.None? <==> s.None?
    ensures s == Some(true) ==> r == Some(cfg.openState)
    ensures s == Some(false) ==> r == Some(cfg.closedState)
  {
    match s
    case None => None
    case Some(b) => Some(if b then cfg.openState else cfg.closedState)
  }

  /** Python truthiness of an optional pattern: present and non-empty. */
  predicate Truthy(p: Option<seq<char>>) {
    p.Some? && |p.value| > 0
  }

  /** The LED writes of a transition to `newState`: the closed pattern when
      entering `true` and it is configured, the open pattern when entering
      `false` and it is configured and non-empty, nothing otherwise. */
  function TransitionLeds(cfg: Config, newState: bool): (w: seq<LedWrite>)
    ensures newState && cfg.closedLeds.Some? ==> WritesPattern(w, LEDS, cfg.closedLeds.value)
    ensures !newState && Truthy(cfg.openLeds) ==> WritesPattern(w, LEDS, cfg.openLeds.value)
    ensures newState && cfg.closedLeds.None? ==> w == []
    ensures !newState && !Truthy(cfg.openLeds) ==> w == []
  {
    if newState && cfg.closedLeds.Some? then ApplyLeds(cfg.closedLeds.value)
    else if !newState && Truthy(cfg.openLeds) then ApplyLeds(cfg.openLeds.value)
    else []
  }

  /** Wraps LED writes as effects, keeping their order. */
  function AsEffects(w: seq<LedWrite>): (e: seq<Effect>)
    ensures |e| == |w|
    ensures forall i :: 0 <= i < |e| ==> e[i] == Led(w[i])
  {
    seq(|w|, i requires 0 <= i < |w| => Led(w[i]))
  }

  /** `transition`: log the change, store the new state with the current
      time, then write the matching pattern. */
  function Transition(cfg: Config, m: Machine, newState: bool, now: Time): (r: Machine)
    ensures Consistent(r) && r.state == Some(newState) && r.lastTransition == Some(now)
    ensures m.effects <= r.effects && |r.effects| > |m.effects|
    ensures r.effects[|m.effects|] == Announced(MapState(cfg, m.state), MapState(cfg, Some(newState)))
    ensures r.effects[|m.effects| + 1..] == AsEffects(TransitionLeds(cfg, newState))
  {
    var announce := Announced(MapState(cfg, m.state), MapState(cfg, Some(newState)));
    Machine(Some(newState), Some(now), m.effects + [announce] + AsEffects(TransitionLeds(cfg, newState)))
  }

  /** One loop iteration that read `pressed`: a transition exactly when the
      reading differs from the stored state (an unset state differs from
      every reading). */
  function Step(cfg: Config, m: Machine, pressed: bool, now: Time): (r: Machine)
    ensures r.state == Some(pressed)
    ensures Consistent(m) ==> Consistent(r)
    ensures m.effects <= r.effects
    ensures m.state == Some(pressed) ==> r == m
    ensures m.state != Some(pressed) ==> r.lastTransition == Some(now) && |r.effects| > |m.effects|
    ensures m.state != Some(pressed) ==> r.effects[|m.effects|].Announced?
  {
    if Some(pressed) != m.state then Transition(cfg, m, pressed, now) else m
  }

  /** Whether `run` initialises the LED triggers: some pattern is configured. */
  predicate DrivesLeds(cfg: Config) {
    cfg.openLeds.Some? || cfg.closedLeds.Some?
  }

  /** The machine as `run` enters its loop: nothing stored yet, and each LED's
      trigger disabled once, only when some pattern is configured. */
  function Start(cfg: Config): (m: Machine)
    ensures m.state.None? && m.lastTransition.None?
    ensures DrivesLeds(cfg) ==> |m.effects| == |LEDS|
    ensures DrivesLeds(cfg) ==> forall i :: 0 <= i < |LEDS| ==> m.effects[i] == Led(DisableTrigger(LEDS[i]))
    ensures !DrivesLeds(cfg) ==> m.effects == []
  {
    Machine(None, None, if DrivesLeds(cfg) then AsEffects(DisableTriggers(LEDS)) else [])
  }

  /** The loop of `run` over the polls it performs, as a left fold: once a
      read has raised, later polls never happen. */
  function Run(cfg: Config, polls: seq<Poll>): (s: Session)
    ensures Consistent(s.machine)
    ensures s.faulted <==> exists i :: 0 <= i < |polls| && polls[i].ReadFault?
    ensures Start(cfg).effects <= s.machine.effects
    decreases |polls|
  {
    if |polls| == 0 then Session(Start(cfg), false)
    else
      var pre := polls[..|polls| - 1];
      assert forall i :: 0 <= i < |pre| ==> pre[i] == polls[i];
      var prior := Run(cfg, pre);
      if prior.faulted then prior
      else
        match polls[|polls| - 1]
        case ReadFault => Session(prior.machine, true)
        case Tick(pressed, now) => Session(Step(cfg, prior.machine, pressed, now), false)
  }

  /** `get_state`: the label and timestamp the HTTP handlers publish. */
  function GetState(cfg: Config, m: Machine): (r: (Option<string>, Option<Time>))
    ensures Consistent(m) ==> (r.0.None? <==> r.1.None?)
    ensures r.0.None? <==> m.state.None?
    ensures m.state == Some(true) ==> r.0 == Some(cfg.openState)
    ensures m.state == Some(false) ==> r.0 == Some(cfg.closedState)
    ensures r.1 == m.lastTransition
  {
    (MapState(cfg, m.state), m.lastTransition)
  }
}
