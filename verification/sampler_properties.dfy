/** Properties of the sampler loop over every sequence of polls: how many
    transitions it makes and where, what the store holds afterwards, which LED
    writes happen, and how a failed read ends the loop. */
module SamplerProperties {
  import opened Wrappers
  import opened Leds
  import opened LedArgs
  import opened StateMachine

  /** Every poll read the pin successfully. */
  predicate FaultFree(polls: seq<Poll>) {
    forall i :: 0 <= i < |polls| ==> polls[i].Tick?
  }

  /** Position `i` is one where the loop calls `transition`: the very first
      poll, or a reading that differs from the one before. */
  ghost predicate IsChangePoint(polls: seq<Poll>, i: int)
    requires FaultFree(polls)
    requires 0 <= i < |polls|
  {
    i == 0 || polls[i].pressed != polls[i - 1].pressed
  }

  /** Positions after the first whose reading differs from the previous one. */
  ghost function AdjacentDifferences(polls: seq<Poll>): set<int>
    requires FaultFree(polls)
  {
    set i | 1 <= i < |polls| && IsChangePoint(polls, i)
  }

  /** How many "Transition" log lines a sequence of effects holds. */
  function CountAnnounced(effects: seq<Effect>): nat {
    if |effects| == 0 then 0
    else (if effects[0].Announced? then 1 else 0) + CountAnnounced(effects[1..])
  }

  /** How many polls the loop performs before a read raises: the index of the
      first failed read, or all of them. */
  function Processed(polls: seq<Poll>): (k: nat)
    ensures k <= |polls|
    ensures forall i :: 0 <= i < k ==> polls[i].Tick?
    ensures k < |polls| ==> polls[k].ReadFault?
  {
    if |polls| == 0 then 0
    else if polls[0].ReadFault? then 0
    else 1 + Processed(polls[1..])
  }

  lemma {:induction false} CountAnnouncedAppend(a: seq<Effect>, b: seq<Effect>)
    ensures CountAnnounced(a + b) == CountAnnounced(a) + CountAnnounced(b)
  {
    if |a| > 0 {
      assert (a + b)[1..] == a[1..] + b;
      CountAnnouncedAppend(a[1..], b);
    } else {
      assert a + b == b;
    }
  }

  lemma {:induction false} LedEffectsAnnounceNothing(w: seq<LedWrite>)
    ensures CountAnnounced(AsEffects(w)) == 0
  {
    if |w| > 0 {
      assert AsEffects(w)[1..] == AsEffects(w[1..]);
      LedEffectsAnnounceNothing(w[1..]);
    }
  }

  /** The first failed read is the only place the loop can stop early. */
  lemma ProcessedUnique(polls: seq<Poll>, k: nat)
    requires k <= |polls|
    requires forall i :: 0 <= i < k ==> polls[i].Tick?
    requires k < |polls| ==> polls[k].ReadFault?
    ensures Processed(polls) == k
  {
  }

  lemma ProcessedSnoc(pre: seq<Poll>, x: Poll)
    ensures Processed(pre + [x]) ==
      if Processed(pre) < |pre| then Processed(pre)
      else if x.ReadFault? then |pre|
      else |pre| + 1
  {
    var polls := pre + [x];
    var k := Processed(pre);
    if k < |pre| {
      assert polls[k] == pre[k];
      ProcessedUnique(polls, k);
    } else if x.ReadFault? {
      ProcessedUnique(polls, |pre|);
    } else {
      ProcessedUnique(polls, |pre| + 1);
    }
  }

  /** A successful read after successful reads is one more step of the fold. */
  lemma RunSnoc(cfg: Config, pre: seq<Poll>, x: Poll)
    requires FaultFree(pre) && x.Tick?
    ensures Run(cfg, pre + [x]) == Session(Step(cfg, Run(cfg, pre).machine, x.pressed, x.now), false)
  {
    var polls := pre + [x];
    assert polls[..|polls| - 1] == pre;
  }

  /** After a run whose reads all succeeded, the store holds the last reading,
      and nothing before the first poll; `get_state` publishes its label. */
  lemma {:induction false} StateIsLastReading(cfg: Config, polls: seq<Poll>)
    requires FaultFree(polls)
    ensures !Run(cfg, polls).faulted
    ensures |polls| == 0 ==> Run(cfg, polls).machine.state.None?
    ensures |polls| > 0 ==> Run(cfg, polls).machine.state == Some(polls[|polls| - 1].pressed)
    ensures |polls| > 0 ==> GetState(cfg, Run(cfg, polls).machine).0 == MapState(cfg, Some(polls[|polls| - 1].pressed))
  {
    if |polls| > 0 {
      var pre := polls[..|polls| - 1];
      assert forall i :: 0 <= i < |pre| ==> pre[i] == polls[i];
      StateIsLastReading(cfg, pre);
    }
  }

  /** A step adds one log line when the reading changes and none otherwise. */
  lemma StepAnnouncesOnChange(cfg: Config, m: Machine, pressed: bool, now: Time)
    ensures CountAnnounced(Step(cfg, m, pressed, now).effects) ==
      CountAnnounced(m.effects) + (if m.state != Some(pressed) then 1 else 0)
  {
    if m.state != Some(pressed) {
      var announce := Announced(MapState(cfg, m.state), MapState(cfg, Some(pressed)));
      var leds := AsEffects(TransitionLeds(cfg, pressed));
      assert Step(cfg, m, pressed, now).effects == m.effects + [announce] + leds;
      CountAnnouncedAppend(m.effects + [announce], leds);
      CountAnnouncedAppend(m.effects, [announce]);
      assert CountAnnounced([announce]) == 1;
      LedEffectsAnnounceNothing(TransitionLeds(cfg, pressed));
    }
  }

  /** Appending a reading adds its position to the adjacent differences
      exactly when it differs from the previous reading. */
  lemma AdjacentDifferencesSnoc(pre: seq<Poll>, x: Poll)
    requires FaultFree(pre) && x.Tick?
    ensures FaultFree(pre + [x])
    ensures |AdjacentDifferences(pre + [x])| ==
      if |pre| == 0 || x.pressed == pre[|pre| - 1].pressed then |AdjacentDifferences(pre)|
      else |AdjacentDifferences(pre)| + 1
  {
    var polls := pre + [x];
    var n := |polls|;
    var before := AdjacentDifferences(pre);
    var after := AdjacentDifferences(polls);
    forall i | 1 <= i < |pre|
      ensures IsChangePoint(polls, i) == IsChangePoint(pre, i)
    {
      assert polls[i] == pre[i] && polls[i - 1] == pre[i - 1];
    }
    if n == 1 {
      assert after == {};
    } else if x.pressed != pre[|pre| - 1].pressed {
      assert IsChangePoint(polls, n - 1);
      assert after == before + {n - 1};
    } else {
      assert !IsChangePoint(polls, n - 1);
      assert after == before;
    }
  }

  /** The transition count: one forced transition at the first poll plus one
      for every position whose reading differs from the previous one. */
  lemma {:induction false} TransitionCount(cfg: Config, polls: seq<Poll>)
    requires FaultFree(polls)
    ensures CountAnnounced(Run(cfg, polls).machine.effects) ==
      if |polls| == 0 then 0 else 1 + |AdjacentDifferences(polls)|
  {
    if |polls| == 0 {
      LedEffectsAnnounceNothing(if DrivesLeds(cfg) then DisableTriggers(LEDS) else []);
    } else {
      var n := |polls|;
      var pre := polls[..n - 1];
      assert forall i :: 0 <= i < |pre| ==> pre[i] == polls[i];
      TransitionCount(cfg, pre);
      StateIsLastReading(cfg, pre);
      var m := Run(cfg, pre).machine;
      var x := polls[n - 1];
      assert polls == pre + [x];
      StepAnnouncesOnChange(cfg, m, x.pressed, x.now);
      RunSnoc(cfg, pre, x);
      AdjacentDifferencesSnoc(pre, x);
    }
  }

  /** Position `j` is the latest change point: every later reading repeats
      its predecessor. */
  ghost predicate IsLatestChange(polls: seq<Poll>, j: int)
    requires FaultFree(polls)
  {
    && 0 <= j < |polls|
    && IsChangePoint(polls, j)
    && forall i :: j < i < |polls| ==> !IsChangePoint(polls, i)
  }

  lemma LatestChangeExtends(pre: seq<Poll>, x: Poll, j: int)
    requires FaultFree(pre) && x.Tick? && |pre| > 0
    requires IsLatestChange(pre, j)
    requires x.pressed == pre[|pre| - 1].pressed
    ensures FaultFree(pre + [x]) && IsLatestChange(pre + [x], j)
  {
    var polls := pre + [x];
    forall i | j < i < |polls|
      ensures !IsChangePoint(polls, i)
    {
      if i < |pre| {
        assert !IsChangePoint(pre, i);
      }
    }
  }

  /** The stored timestamp is the clock reading of the latest transition:
      the last change point, after which every reading equals its predecessor. */
  lemma {:induction false} TimestampOfLatestTransition(cfg: Config, polls: seq<Poll>)
    requires FaultFree(polls)
    requires |polls| > 0
    ensures exists j :: (IsLatestChange(polls, j)
      && Run(cfg, polls).machine.lastTransition == Some(polls[j].now))
  {
    var n := |polls|;
    var pre := polls[..n - 1];
    var x := polls[n - 1];
    assert polls == pre + [x];
    assert FaultFree(pre);
    RunSnoc(cfg, pre, x);
    if n == 1 {
      assert IsLatestChange(polls, 0);
    } else {
      StateIsLastReading(cfg, pre);
      if x.pressed != pre[n - 2].pressed {
        assert IsLatestChange(polls, n - 1);
      } else {
        TimestampOfLatestTransition(cfg, pre);
        var j :| IsLatestChange(pre, j) && Run(cfg, pre).machine.lastTransition == Some(pre[j].now);
        LatestChangeExtends(pre, x, j);
        assert polls[j] == pre[j];
      }
    }
  }

  /** A failed read ends the loop: the outcome is the store as it stood after
      the polls before the first failure, and it is faulted exactly when some
      read failed. */
  lemma {:induction false} RunStopsAtFirstFault(cfg: Config, polls: seq<Poll>)
    ensures Run(cfg, polls) ==
      Session(Run(cfg, polls[..Processed(polls)]).machine, Processed(polls) < |polls|)
  {
    if |polls| > 0 {
      var n := |polls|;
      var pre := polls[..n - 1];
      var x := polls[n - 1];
      assert polls == pre + [x];
      RunStopsAtFirstFault(cfg, pre);
      ProcessedSnoc(pre, x);
      var k := Processed(pre);
      if k < |pre| {
        assert polls[..k] == pre[..k];
      } else {
        assert pre[..k] == pre;
        assert polls[..n] == polls;
      }
    }
  }

  /** Once a read has failed, further polls change nothing. */
  lemma {:induction false} FaultIsFinal(cfg: Config, pre: seq<Poll>, more: seq<Poll>)
    requires Run(cfg, pre).faulted
    ensures Run(cfg, pre + more) == Run(cfg, pre)
  {
    if |more| > 0 {
      var polls := pre + more;
      var shorter := more[..|more| - 1];
      assert polls[..|polls| - 1] == pre + shorter;
      FaultIsFinal(cfg, pre, shorter);
      assert Run(cfg, polls) == Run(cfg, pre + shorter);
    } else {
      assert pre + more == pre;
    }
  }

  /** A poll whose reading equals the stored state writes nothing and leaves
      what `get_state` reports untouched; one that differs stores the reading
      and the clock together through `transition`. */
  lemma StepEffects(cfg: Config, m: Machine, pressed: bool, now: Time)
    ensures m.state == Some(pressed) ==> Step(cfg, m, pressed, now) == m
    ensures m.state == Some(pressed) ==>
      GetState(cfg, Step(cfg, m, pressed, now)) == GetState(cfg, m)
    ensures m.state != Some(pressed) ==>
      GetState(cfg, Step(cfg, m, pressed, now)) == (MapState(cfg, Some(pressed)), Some(now))
    ensures m.state != Some(pressed) ==> Step(cfg, m, pressed, now) == Transition(cfg, m, pressed, now)
  {
  }

  /** Without any configured pattern the sampler never touches an LED: its
      only effects are the transition log lines. */
  lemma {:induction false} NoPatternsNoLedWrites(cfg: Config, polls: seq<Poll>)
    requires cfg.openLeds.None? && cfg.closedLeds.None?
    ensures forall i :: 0 <= i < |Run(cfg, polls).machine.effects| ==>
      Run(cfg, polls).machine.effects[i].Announced?
  {
    if |polls| > 0 {
      NoPatternsNoLedWrites(cfg, polls[..|polls| - 1]);
    }
  }

  /** Trigger writes happen only while starting up. */
  lemma {:induction false} OnlyStartDisablesTriggers(cfg: Config, polls: seq<Poll>)
    ensures forall k :: |Start(cfg).effects| <= k < |Run(cfg, polls).machine.effects| ==>
      !(Run(cfg, polls).machine.effects[k].Led? && Run(cfg, polls).machine.effects[k].write.DisableTrigger?)
  {
    if |polls| > 0 {
      OnlyStartDisablesTriggers(cfg, polls[..|polls| - 1]);
    }
  }

  /** Over any run, each LED's trigger is disabled exactly once when some
      pattern is configured, and never otherwise. */
  lemma TriggersDisabledOnce(cfg: Config, polls: seq<Poll>, i: nat)
    requires i < |LEDS|
    ensures multiset(Run(cfg, polls).machine.effects)[Led(DisableTrigger(LEDS[i]))] ==
      if DrivesLeds(cfg) then 1 else 0
  {
    var effects := Run(cfg, polls).machine.effects;
    var start := Start(cfg).effects;
    var x := Led(DisableTrigger(LEDS[i]));
    OnlyStartDisablesTriggers(cfg, polls);
    assert effects == start + effects[|start|..];
    assert x !in effects[|start|..];
    LedsDistinct();
    if DrivesLeds(cfg) {
      assert start == [Led(DisableTrigger(LEDS[0])), Led(DisableTrigger(LEDS[1]))];
    }
  }

  /** With distinct labels, the published label determines the raw state. */
  lemma MapStateInjective(cfg: Config, a: Option<bool>, b: Option<bool>)
    requires cfg.openState != cfg.closedState
    requires MapState(cfg, a) == MapState(cfg, b)
    ensures a == b
  {
  }

  /** Patterns "10" for open and "01" for closed: entering `false` lights the
      first LED only, entering `true` the second only. */
  lemma PatternScenario(openArg: string, closedArg: string, cfg: Config)
    requires openArg == "10" && closedArg == "01"
    requires ParseLedsArg(Some(openArg)).Success? && ParseLedsArg(Some(closedArg)).Success?
    requires cfg.openLeds == ParseLedsArg(Some(openArg)).value
    requires cfg.closedLeds == ParseLedsArg(Some(closedArg)).value
    ensures TransitionLeds(cfg, false) == [SetBrightness(LEDS[0], '1'), SetBrightness(LEDS[1], '0')]
    ensures TransitionLeds(cfg, true) == [SetBrightness(LEDS[0], '0'), SetBrightness(LEDS[1], '1')]
  {
  }

  /** Default labels: a first reading of `false` publishes "closed" with its
      clock; a following `true` publishes "open" with the later clock. */
  lemma LabelScenario(cfg: Config, t0: Time, t1: Time)
    requires cfg.openState == "open" && cfg.closedState == "closed"
    ensures GetState(cfg, Run(cfg, [Tick(false, t0)]).machine) == (Some("closed"), Some(t0))
    ensures GetState(cfg, Run(cfg, [Tick(false, t0), Tick(true, t1)]).machine) == (Some("open"), Some(t1))
  {
    assert [Tick(false, t0), Tick(true, t1)][..1] == [Tick(false, t0)];
  }
}
