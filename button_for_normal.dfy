/** The "no anomaly" answer button (ButtonForNormal.cs): a cooldown gate,
    then a rapid-press counter over a sliding window that ends in a
    permanent ban. The ban flag, the press time and the window settings live
    on the GameManager and are shared with the other buttons. */
module NormalButton {
  import opened Scene
  import opened Timing
  import opened Session

  /** COOLDOWN_TIME: one second. */
  const CooldownTime: real := 1.0

  /** What a press does: disable the button, nothing, ban, or answer "no anomaly". */
  datatype Verdict = Deactivate | Ignore | Ban | Submit

  /** The counter after an accepted press: one more (a byte increment)
      within the window, back to 1 outside it. */
  function NextRapidCount(now: real, lastPressTime: real, rapidPressCount: int, rapidPressWindow: real): int {
    if now - lastPressTime <= rapidPressWindow then ToByte(rapidPressCount + 1) else 1
  }

  function Judge(isBanned: bool, now: real, lastPressTime: real, rapidPressCount: int, managerValid: bool,
                 rapidPressWindow: real, maxRapidPresses: int): Verdict {
    if isBanned then Deactivate
    else if !CooledDown(now, lastPressTime, CooldownTime) || !managerValid then Ignore
    else if NextRapidCount(now, lastPressTime, rapidPressCount, rapidPressWindow) >= maxRapidPresses then Ban
    else Submit
  }

  /** A client's anti-cheat state: the ban flag, the last accepted press and the counter. */
  datatype Limiter = Limiter(isBanned: bool, lastPressTime: real, rapidPressCount: int)

  /** One press: the ban path bumps the counter but not the press time. */
  function Press(g: Limiter, now: real, managerValid: bool, rapidPressWindow: real, maxRapidPresses: int): Limiter {
    var count := NextRapidCount(now, g.lastPressTime, g.rapidPressCount, rapidPressWindow);
    match Judge(g.isBanned, now, g.lastPressTime, g.rapidPressCount, managerValid, rapidPressWindow, maxRapidPresses)
    case Deactivate => g
    case Ignore => g
    case Ban => g.(isBanned := true, rapidPressCount := count)
    case Submit => g.(lastPressTime := now, rapidPressCount := count)
  }

  /** A run of presses at the given times, with a valid GameManager. */
  function Presses(g: Limiter, times: seq<real>, rapidPressWindow: real, maxRapidPresses: int): Limiter
    decreases |times|
  {
    if times == [] then g
    else Presses(Press(g, times[0], true, rapidPressWindow, maxRapidPresses), times[1..], rapidPressWindow, maxRapidPresses)
  }

  /** How many presses of the run submit an answer. */
  function Submissions(g: Limiter, times: seq<real>, rapidPressWindow: real, maxRapidPresses: int): nat
    decreases |times|
  {
    if times == [] then 0
    else
      (if Judge(g.isBanned, times[0], g.lastPressTime, g.rapidPressCount, true, rapidPressWindow, maxRapidPresses) == Submit
       then 1 else 0) +
      Submissions(Press(g, times[0], true, rapidPressWindow, maxRapidPresses), times[1..], rapidPressWindow, maxRapidPresses)
  }

  /** Every press at least the cooldown and at most the window after the one before it. */
  predicate RapidlySpaced(lastPressTime: real, times: seq<real>, rapidPressWindow: real)
    decreases |times|
  {
    times == [] ||
    (CooldownTime <= times[0] - lastPressTime <= rapidPressWindow &&
     RapidlySpaced(times[0], times[1..], rapidPressWindow))
  }

  /** Every press at least the cooldown and more than the window after the one before it. */
  predicate SlowlySpaced(lastPressTime: real, times: seq<real>, rapidPressWindow: real)
    decreases |times|
  {
    times == [] ||
    (times[0] - lastPressTime >= CooldownTime && times[0] - lastPressTime > rapidPressWindow &&
     SlowlySpaced(times[0], times[1..], rapidPressWindow))
  }

  /** Once banned, every later press only disables the button: nothing is
      submitted and the anti-cheat state stays as it is. */
  lemma {:induction false} BanIsFinal(g: Limiter, times: seq<real>, rapidPressWindow: real, maxRapidPresses: int)
    requires g.isBanned
    ensures Presses(g, times, rapidPressWindow, maxRapidPresses) == g
    ensures Submissions(g, times, rapidPressWindow, maxRapidPresses) == 0
    decreases |times|
  {
    if times != [] {
      BanIsFinal(g, times[1..], rapidPressWindow, maxRapidPresses);
    }
  }

  /** The last press time never goes backwards, whatever the press times:
      it only moves on a press at least a cooldown after it. */
  lemma {:induction false} LastPressNeverDecreases(g: Limiter, times: seq<real>, rapidPressWindow: real,
                                                   maxRapidPresses: int)
    ensures Presses(g, times, rapidPressWindow, maxRapidPresses).lastPressTime >= g.lastPressTime
    decreases |times|
  {
    if times != [] {
      var g' := Press(g, times[0], true, rapidPressWindow, maxRapidPresses);
      assert g'.lastPressTime >= g.lastPressTime;
      LastPressNeverDecreases(g', times[1..], rapidPressWindow, maxRapidPresses);
    }
  }

  /** Presses that each land between the cooldown and the window after the
      previous one are banned on the press that brings the counter to
      maxRapidPresses; every press before it is answered. */
  lemma {:induction false} RapidPressesBan(g: Limiter, times: seq<real>, rapidPressWindow: real, maxRapidPresses: int)
    requires !g.isBanned && IsByte(maxRapidPresses) && 0 <= g.rapidPressCount < maxRapidPresses
    requires RapidlySpaced(g.lastPressTime, times, rapidPressWindow)
    requires |times| >= maxRapidPresses - g.rapidPressCount
    ensures Presses(g, times, rapidPressWindow, maxRapidPresses).isBanned
    ensures Submissions(g, times, rapidPressWindow, maxRapidPresses) == maxRapidPresses - g.rapidPressCount - 1
    decreases |times|
  {
    var g' := Press(g, times[0], true, rapidPressWindow, maxRapidPresses);
    assert NextRapidCount(times[0], g.lastPressTime, g.rapidPressCount, rapidPressWindow) == g.rapidPressCount + 1;
    if g.rapidPressCount + 1 >= maxRapidPresses {
      BanIsFinal(g', times[1..], rapidPressWindow, maxRapidPresses);
    } else {
      RapidPressesBan(g', times[1..], rapidPressWindow, maxRapidPresses);
    }
  }

  /** Presses spaced more than the window apart are all answered and never
      banned, as long as a ban needs at least two rapid presses. */
  lemma {:induction false} SlowPressesNeverBan(g: Limiter, times: seq<real>, rapidPressWindow: real, maxRapidPresses: int)
    requires !g.isBanned && 2 <= maxRapidPresses
    requires SlowlySpaced(g.lastPressTime, times, rapidPressWindow)
    ensures !Presses(g, times, rapidPressWindow, maxRapidPresses).isBanned
    ensures Submissions(g, times, rapidPressWindow, maxRapidPresses) == |times|
    ensures |times| > 0 ==> Presses(g, times, rapidPressWindow, maxRapidPresses).rapidPressCount == 1
    decreases |times|
  {
    if times != [] {
      var g' := Press(g, times[0], true, rapidPressWindow, maxRapidPresses);
      assert g' == Limiter(false, times[0], 1);
      SlowPressesNeverBan(g', times[1..], rapidPressWindow, maxRapidPresses);
    }
  }

  /** The GameManager after a press with the given verdict. */
  function AfterNormalPress(c: Config, s: Snapshot, v: Verdict, now: real, anomalyRoll: bool, draws: seq<int>,
                            playerValid: bool): Snapshot
    requires v == Submit ==> AnswerReady(s, anomalyRoll, draws)
  {
    match v
    case Deactivate => s
    case Ignore => s
    case Ban => AfterBan(s)
    case Submit => AfterAnswer(c, s, false, anomalyRoll, draws, playerValid).(lastPressTime := now)
  }

  function NormalPressLog(c: Config, s: Snapshot, v: Verdict, anomalyRoll: bool, draws: seq<int>,
                          playerValid: bool): seq<Event>
    requires v == Submit ==> AnswerReady(s, anomalyRoll, draws)
  {
    match v
    case Deactivate => []
    case Ignore => []
    case Ban => BanEvents(true, playerValid)
    case Submit => AnswerLog(c, s, false, anomalyRoll, draws, playerValid)
  }

  class ButtonForNormal {
    const gameManager: GameManager
    var rapidPressCount: int
    /** the button's own GameObject */
    var active: bool

    ghost predicate Valid()
      reads this, gameManager, gameManager.anomalyStages, gameManager.progressObjects
    {
      gameManager.Valid() && IsByte(rapidPressCount)
    }

    ghost function Gate(): Limiter
      reads this, gameManager
    {
      Limiter(gameManager.isBanned, gameManager.lastPressTime, rapidPressCount)
    }

    constructor (gameManager: GameManager)
      requires gameManager.Valid()
      ensures Valid()
      ensures this.gameManager == gameManager && rapidPressCount == 0 && active
    {
      this.gameManager := gameManager;
      rapidPressCount := 0;
      active := true;
    }

    /** A press at time `now`; `managerValid` is Utilities.IsValid(gameManager). */
    method Interact(now: real, managerValid: bool, anomalyRoll: bool, draws: seq<int>, playerValid: bool)
      requires Valid()
      requires Judge(gameManager.isBanned, now, gameManager.lastPressTime, rapidPressCount, managerValid,
                     gameManager.rapidPressWindow, gameManager.maxRapidPresses) == Submit && anomalyRoll ==>
               PickerReady(gameManager.anomalyStages.Length, gameManager.anomalyStageIndex, draws)
      modifies this, gameManager, gameManager.anomalyStages, gameManager.progressObjects
      ensures Valid()
      ensures Gate() == Press(old(Gate()), now, managerValid, gameManager.rapidPressWindow, gameManager.maxRapidPresses)
      ensures var v := Judge(old(gameManager.isBanned), now, old(gameManager.lastPressTime), old(rapidPressCount),
                             managerValid, gameManager.rapidPressWindow, gameManager.maxRapidPresses);
        active == (v != Deactivate && old(active)) &&
        gameManager.Snap() ==
          AfterNormalPress(gameManager.Cfg(), old(gameManager.Snap()), v, now, anomalyRoll, draws, playerValid) &&
        gameManager.log ==
          old(gameManager.log) + NormalPressLog(gameManager.Cfg(), old(gameManager.Snap()), v, anomalyRoll, draws, playerValid)
    {
      if gameManager.isBanned {
        active := false;
        return;
      }
      var currentTime := now;
      if CooledDown(currentTime, gameManager.lastPressTime, CooldownTime) {
        if !managerValid {
          return;
        }
        if currentTime - gameManager.lastPressTime <= gameManager.rapidPressWindow {
          rapidPressCount := ToByte(rapidPressCount + 1);
        } else {
          rapidPressCount := 1;
        }
        if rapidPressCount >= gameManager.maxRapidPresses {
          gameManager.BanPlayer(playerValid);
          return;
        }
        gameManager.CheckAnswer(false, anomalyRoll, draws, playerValid);
        gameManager.lastPressTime := currentTime;
      }
    }
  }
}
