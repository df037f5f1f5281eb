/** The cooldown gate the three buttons put in front of every press:
    `Time.time - lastPressTime >= cooldown`. Timestamps are reals; only
    subtraction and comparison are used. */
module Timing {

  predicate CooledDown(now: real, lastPressTime: real, cooldown: real) {
    now - lastPressTime >= cooldown
  }

  /** The presses a gate accepts from a run of press times, when every press
      that passes the gate moves `lastPressTime` to its own time. */
  function AcceptedPresses(lastPressTime: real, times: seq<real>, cooldown: real): seq<real>
    decreases |times|
  {
    if times == [] then []
    else if CooledDown(times[0], lastPressTime, cooldown) then
      [times[0]] + AcceptedPresses(times[0], times[1..], cooldown)
    else
      AcceptedPresses(lastPressTime, times[1..], cooldown)
  }

  /** A cooldown gate never accepts two presses closer together than the
      cooldown, whatever the press times (they need not even be increasing). */
  lemma {:induction false} AcceptedPressesAreSpaced(lastPressTime: real, times: seq<real>, cooldown: real)
    ensures var acc := AcceptedPresses(lastPressTime, times, cooldown);
      (|acc| > 0 ==> acc[0] - lastPressTime >= cooldown) &&
      (forall i :: 0 < i < |acc| ==> acc[i] - acc[i - 1] >= cooldown)
    decreases |times|
  {
    if times != [] {
      if CooledDown(times[0], lastPressTime, cooldown) {
        AcceptedPressesAreSpaced(times[0], times[1..], cooldown);
        var rest := AcceptedPresses(times[0], times[1..], cooldown);
        var acc := [times[0]] + rest;
        forall i | 0 < i < |acc|
          ensures acc[i] - acc[i - 1] >= cooldown
        {
          if i > 1 {
            assert acc[i] == rest[i - 1] && acc[i - 1] == rest[i - 2];
          }
        }
      } else {
        AcceptedPressesAreSpaced(lastPressTime, times[1..], cooldown);
      }
    }
  }

  /** The press time a gate holds after a run of presses: each press that
      passes the gate takes it to that press's time. */
  function PressTimeAfter(lastPressTime: real, times: seq<real>, cooldown: real): real
    decreases |times|
  {
    if times == [] then lastPressTime
    else PressTimeAfter(if CooledDown(times[0], lastPressTime, cooldown) then times[0] else lastPressTime,
                        times[1..], cooldown)
  }

  /** After a run, the gate holds the time of the last accepted press, or
      its old time when no press was accepted. */
  lemma {:induction false} PressTimeIsLastAccepted(lastPressTime: real, times: seq<real>, cooldown: real)
    ensures var acc := AcceptedPresses(lastPressTime, times, cooldown);
      PressTimeAfter(lastPressTime, times, cooldown) == if acc == [] then lastPressTime else acc[|acc| - 1]
    decreases |times|
  {
    if times != [] {
      if CooledDown(times[0], lastPressTime, cooldown) {
        PressTimeIsLastAccepted(times[0], times[1..], cooldown);
      } else {
        PressTimeIsLastAccepted(lastPressTime, times[1..], cooldown);
      }
    }
  }

  /** A run of presses followed by one more press: the gate's press time and
      its accepted presses extend press by press, so a run of single-press
      steps follows the run functions. */
  lemma {:induction false} RunExtends(lastPressTime: real, times: seq<real>, now: real, cooldown: real)
    ensures PressTimeAfter(lastPressTime, times + [now], cooldown) ==
            PressTimeAfter(PressTimeAfter(lastPressTime, times, cooldown), [now], cooldown)
    ensures AcceptedPresses(lastPressTime, times + [now], cooldown) ==
            AcceptedPresses(lastPressTime, times, cooldown) +
            AcceptedPresses(PressTimeAfter(lastPressTime, times, cooldown), [now], cooldown)
    decreases |times|
  {
    if times == [] {
      assert times + [now] == [now];
    } else {
      assert (times + [now])[1..] == times[1..] + [now];
      var next := if CooledDown(times[0], lastPressTime, cooldown) then times[0] else lastPressTime;
      RunExtends(next, times[1..], now, cooldown);
    }
  }
}
