/** The indicator driver: the two fixed LED brightness files, the writes that
    mirror a pattern onto them, and the one-time trigger initialisation.
    File I/O is abstracted as a sequence of write events. */
module Leds {

  /** Brightness files of the two indicator LEDs, in the order a pattern indexes them. */
  const LEDS: seq<string> := ["/sys/class/leds/PWR/brightness", "/sys/class/leds/ACT/brightness"]

  /** One write to an LED's sysfs directory. */
  datatype LedWrite =
    | SetBrightness(led: string, symbol: char)  // `symbol` written to the brightness file `led`
    | DisableTrigger(led: string)                // "none" written to the trigger file beside `led`

  function Min(a: nat, b: nat): nat {
    if a <= b then a else b
  }

  /** `w` writes `p[i]` to `leds[i]`, in index order, for exactly the indices both
      sequences have, and does nothing else. */
  ghost predicate WritesPattern(w: seq<LedWrite>, leds: seq<string>, p: seq<char>) {
    && |w| == Min(|leds|, |p|)
    && forall i :: 0 <= i < |w| ==> w[i] == SetBrightness(leds[i], p[i])
  }

  /** Pairs LED files with pattern symbols the way Python's `zip` does: the
      shorter input decides how many pairs there are. */
  function Zip(leds: seq<string>, p: seq<char>): (w: seq<LedWrite>)
    ensures WritesPattern(w, leds, p)
  {
    if |leds| == 0 || |p| == 0 then []
    else [SetBrightness(leds[0], p[0])] + Zip(leds[1..], p[1..])
  }

  /** The writes `apply_leds` performs for a pattern. */
  function ApplyLeds(p: seq<char>): (w: seq<LedWrite>)
    ensures WritesPattern(w, LEDS, p)
    ensures forall k :: 0 <= k < |w| ==> w[k].SetBrightness? && w[k].led in LEDS
  {
    Zip(LEDS, p)
  }

  /** One trigger-disabling write per file of `leds`, in order. */
  function DisableTriggers(leds: seq<string>): (w: seq<LedWrite>)
    ensures |w| == |leds|
    ensures forall i :: 0 <= i < |w| ==> w[i] == DisableTrigger(leds[i])
  {
    if |leds| == 0 then [] else [DisableTrigger(leds[0])] + DisableTriggers(leds[1..])
  }

  /** The two LED files are distinct, so a write names exactly one LED. */
  lemma LedsDistinct()
    ensures LEDS[0] != LEDS[1]
  {
    assert LEDS[0][17] != LEDS[1][17];
  }
}
