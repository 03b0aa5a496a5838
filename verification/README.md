# garix sampler — a Dafny model

garix watches one binary sensor (a door reed switch on a GPIO pin), publishes
its state as an "open"/"closed" label with the time of the last change, and
optionally mirrors the state onto two indicator LEDs. This project models the
sequential decision logic of its state machine in `garix/__init__.py`:

- `led_args.dfy` (`LedArgs`): validation of the LED pattern arguments (`parse_leds_arg`).
- `leds.dfy` (`Leds`): the two fixed LED brightness files, `apply_leds` as a
  sequence of write events, and the trigger-disabling writes of `initialize_led`.
- `state_machine.dfy` (`StateMachine`): the store record (`state`,
  `last_transition`), `map_state`, `transition`, the change detection of the
  polling loop in `run` as a left fold over a finite sequence of polls, and
  `get_state`.
- `sampler_properties.dfy` (`SamplerProperties`): properties of the fold over
  every sequence of polls.
- `wrappers.dfy` (`Wrappers`): `Option` for Python's `None`, `Result` for a
  raised exception.

Each poll is either a successful pin read paired with the clock reading that
`time.time()` would return if the poll causes a transition, or a failed read.
The sampler thread holds the lock for each update, so every poll is modelled as
one atomic step. The loop's stop event corresponds to the end of the poll
sequence. A failed read ends the fold with `faulted` set. Effects are recorded
in order: the "Transition: a -> b" log line, brightness writes and trigger
writes.

Two behaviours of the code are kept exactly as written:

- The source is inconsistent about what `True` means. `map_state` labels `True`
  with the open label (garix/__init__.py:56), but `transition` applies the
  closed pattern when the new state is `True` (garix/__init__.py:65). So after
  a `True` reading the sampler publishes the open label and shows the closed
  LED pattern. `LabelScenario` shows the labelling: a first reading of `false`
  publishes "closed".
- The open pattern is applied only when it is truthy, meaning present and
  non-empty (garix/__init__.py:67). The closed pattern is applied whenever it is
  present (garix/__init__.py:65).

## Model

| member | source | states |
|---|---|---|
| LedArgs.ParseLedsArg | garix/__init__.py:116-129 | No argument gives no pattern. A given string is accepted exactly when it has two characters, each `0` or `1`. It then yields those characters in order. Any other string raises an error that quotes it. |
| LedArgs.CheckSymbols | garix/__init__.py:123-129 | The per-character check succeeds exactly when every character is `0` or `1`. On success it returns the characters unchanged. On failure the error quotes the whole argument. |
| Leds.Zip | garix/__init__.py:34 | Pairing LED files with symbols yields exactly min(files, symbols) writes. Write i puts symbol i into file i. |
| Leds.ApplyLeds | garix/__init__.py:33-36 | `apply_leds(p)` writes `p[i]` to `LEDS[i]` for each i < min(2, \|p\|), in index order. It touches no other file. |
| Leds.DisableTriggers | garix/__init__.py:73-74 | There is one trigger-disabling write per LED file, in list order. Each is the "none" write of `initialize_led` (lines 28-31). |
| StateMachine.MapState | garix/__init__.py:52-56 | The label is absent exactly when the state is. `True` gets the open label and `False` the closed label. |
| StateMachine.TransitionLeds | garix/__init__.py:65-68 | On a transition to `True`, the closed pattern is written when it is configured, and nothing is written otherwise. On a transition to `False`, the open pattern is written when it is present and non-empty, and nothing is written otherwise. |
| StateMachine.Transition | garix/__init__.py:58-68 | A transition stores the new state and the clock reading together. It keeps every earlier effect, then appends one log line naming the old and new labels, then the LED writes of the matching pattern. |
| StateMachine.Step | garix/__init__.py:82-83 | After a poll the store holds the reading. A reading equal to the stored state changes nothing. A differing one records the clock and appends a log line. Earlier effects are kept and consistency is preserved. |
| StateMachine.Start | garix/__init__.py:42-45 | The store starts with neither state nor timestamp. Each LED's trigger is disabled once, and only when some pattern is configured (lines 72-74). |
| StateMachine.Run | garix/__init__.py:79-91 | After any sequence of polls, state and timestamp are both set or both unset. The run is faulted exactly when some read failed. The start-up writes come before everything else. |
| StateMachine.GetState | garix/__init__.py:112-114 | The published label and timestamp are absent together when the store is consistent. The label is absent exactly when the state is. `True` is published with the open label and `False` with the closed label. The timestamp is the stored one. |
| SamplerProperties.Processed | garix/__init__.py:79-91 | The number of polls performed is the index of the first failed read, or all of the polls when none fails. |
| SamplerProperties.StateIsLastReading | garix/__init__.py:79-83 | After successful reads, the store holds the last reading, and `get_state` publishes that reading's label. Before any poll, the store holds nothing. |
| SamplerProperties.StepAnnouncesOnChange | garix/__init__.py:82-83 | A poll adds one transition log line when its reading differs from the stored state, and none otherwise. |
| SamplerProperties.TransitionCount | garix/__init__.py:58-83 | The number of transitions is 0 for no polls. Otherwise it is 1 for the forced first transition plus the number of positions whose reading differs from the previous one. |
| SamplerProperties.TimestampOfLatestTransition | garix/__init__.py:61-63 | The stored timestamp is the clock reading at the latest change point. That is the first poll or the last reading that differed from its predecessor. |
| SamplerProperties.RunStopsAtFirstFault | garix/__init__.py:79-91 | A run ends up where the polls before the first failed read left it. It is faulted exactly when some read failed. |
| SamplerProperties.FaultIsFinal | garix/__init__.py:88-91 | Once a read has failed, more polls change neither the store nor the effects. |
| SamplerProperties.StepEffects | garix/__init__.py:82-83 | A poll that matches the stored state writes nothing and leaves `get_state` unchanged. A differing poll publishes the new label and the clock together, and is exactly a `transition`. |
| SamplerProperties.NoPatternsNoLedWrites | garix/__init__.py:65-74 | With no pattern configured, no LED file is ever written over any run. |
| SamplerProperties.OnlyStartDisablesTriggers | garix/__init__.py:72-74 | No trigger write happens after start-up. |
| SamplerProperties.TriggersDisabledOnce | garix/__init__.py:72-74 | Over any run, each LED's trigger is disabled exactly once if some pattern is configured, and never otherwise. |
| SamplerProperties.MapStateInjective | garix/__init__.py:52-56 | With distinct labels, the published label determines the raw state. |
| SamplerProperties.PatternScenario | garix/__init__.py:65-68 | With patterns "10" for open and "01" for closed, entering `False` writes 1 to the first LED and 0 to the second. Entering `True` writes 0 and 1. |
| SamplerProperties.LabelScenario | garix/__init__.py:52-63 | With the default labels, a first reading of `False` publishes "closed" with its clock reading. A following `True` publishes "open" with the later clock reading. |

## Left out

- Threading, the lock, the stop event, `start`/`stop`/`__enter__`/`__exit__`: concurrency and lifecycle plumbing. Each poll is one atomic step, and the end of the poll sequence stands for the stop signal.
- `traceback.print_exc()` and `os._exit(1)`: process termination is modelled only as the `faulted` flag that ends the fold.
- The gpiozero `Button`: its construction, including failure to claim the pin, is hardware and not modelled. Its readings are the input polls.
- File I/O in `apply_leds` and `initialize_led`: it is modelled as write events. A write that raises is not modelled.
- `initialize_led` writes "none" to the path `led.replace('brightness', 'trigger')`. This is modelled as a `DisableTrigger(led)` event and does not compute the string replacement.
- `time.time()` and `time.sleep(self.delay)`: the clock is an input reading per poll, with no monotonicity claimed. The poll delay and the pin number have no effect on the logic.
- The "State machine running" and "State machine exiting" log lines: logging only. The transition log line is kept because it marks each transition.
- LED patterns are modelled as sequences of characters, which is what `parse_leds_arg` produces.
- The Flask routes `/json` and `/prometheus`, the click CLI (`cli`, `live`, `serve`), `main` and its `pdb` post-mortem: HTTP, CLI and JSON formatting glue. `live` also omits the `open_state` and `closed_state` arguments that the constructor requires.
- setup.py: packaging metadata only.
