/** Validation of the command-line LED pattern strings (`--open-leds`,
    `--closed-leds`). */
module LedArgs {
  import opened Wrappers

  /** The error `parse_leds_arg` raises; it carries the rejected string. */
  datatype ParseError = InvalidLedString(arg: string)

  /** The symbols an LED pattern may contain. */
  predicate IsSymbol(c: char) {
    c == '0' || c == '1'
  }

  /** A well-formed pattern: one `0`/`1` symbol for each of the two LEDs. */
  predicate ValidPattern(s: string) {
    |s| == 2 && forall i :: 0 <= i < |s| ==> IsSymbol(s[i])
  }

  /** Checks the characters of `rest` left to right, failing on the first one
      that is not a symbol; `arg` is the whole string, quoted in the error. */
  function CheckSymbols(arg: string, rest: string): (r: Result<seq<char>, ParseError>)
    ensures r.Success? <==> forall i :: 0 <= i < |rest| ==> IsSymbol(rest[i])
    ensures r.Success? ==> r.value == rest
    ensures r.Failure? ==> r.error == InvalidLedString(arg)
  {
    if |rest| == 0 then Success([])
    else if !IsSymbol(rest[0]) then Failure(InvalidLedString(arg))
    else
      match CheckSymbols(arg, rest[1..])
      case Success(tail) => Success([rest[0]] + tail)
      case Failure(e) => Failure(e)
  }

  /** `parse_leds_arg`: an absent argument means no pattern; a present one is
      accepted exactly when it is a valid pattern, and then yields its own
      characters in order. */
  function ParseLedsArg(arg: Option<string>): (r: Result<Option<seq<char>>, ParseError>)
    ensures arg.None? ==> r == Success(None)
    ensures arg.Some? ==> (r.Success? <==> ValidPattern(arg.value))
    ensures arg.Some? && r.Success? ==> r.value == Some(arg.value) && |r.value.value| == 2
    ensures r.Failure? ==> arg.Some? && r.error == InvalidLedString(arg.value)
  {
    match arg
    case None => Success(None)
    case Some(s) =>
      if |s| != 2 then Failure(InvalidLedString(s))
      else
        match CheckSymbols(s, s)
        case Success(p) => Success(Some(p))
        case Failure(e) => Failure(e)
  }
}
