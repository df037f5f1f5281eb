/** The "anomaly" answer button (ButtonForAnomaly.cs): a one-second
    cooldown kept on the button itself, then an "anomaly" answer. It has no
    ban check and no rapid-press counter of its own. */
module AnomalyButton {
  import opened Timing
  import opened Session

  class ButtonForAnomaly {
    /** null when unassigned in the inspector */
    const gameManager: GameManager?
    const cooldownTime: real := 1.0
    var lastPressTime: real

    /** The objects a press may touch. */
    ghost function ManagerObjects(): set<object> {
      if gameManager == null then {} else {gameManager, gameManager.anomalyStages, gameManager.progressObjects}
    }

    ghost predicate Valid()
      reads this, ManagerObjects()
    {
      gameManager != null ==> gameManager.Valid()
    }

    constructor (gameManager: GameManager?)
      requires gameManager != null ==> gameManager.Valid()
      ensures Valid()
      ensures this.gameManager == gameManager && lastPressTime == 0.0
    {
      this.gameManager := gameManager;
      lastPressTime := 0.0;
    }

    /** A press at time `now`: answered when the cooldown has run out and a
        GameManager is assigned, and only then is the press time moved. */
    method Interact(now: real, anomalyRoll: bool, draws: seq<int>, playerValid: bool)
      requires Valid()
      requires gameManager != null && CooledDown(now, lastPressTime, cooldownTime) && anomalyRoll ==>
               PickerReady(gameManager.anomalyStages.Length, gameManager.anomalyStageIndex, draws)
      modifies this, ManagerObjects()
      ensures Valid()
      ensures gameManager != null ==> gameManager.isBanned == old(gameManager.isBanned)
      ensures gameManager != null ==> lastPressTime == PressTimeAfter(old(lastPressTime), [now], cooldownTime)
      ensures AcceptedPresses(old(lastPressTime), [now], cooldownTime) == [now] <==>
              CooledDown(now, old(lastPressTime), cooldownTime)
      ensures var accepted := gameManager != null && CooledDown(now, old(lastPressTime), cooldownTime);
        lastPressTime == (if accepted then now else old(lastPressTime)) &&
        (gameManager != null ==>
          gameManager.Snap() ==
            (if accepted then AfterAnswer(gameManager.Cfg(), old(gameManager.Snap()), true, anomalyRoll, draws, playerValid)
             else old(gameManager.Snap())) &&
          gameManager.log ==
            old(gameManager.log) +
            (if accepted then AnswerLog(gameManager.Cfg(), old(gameManager.Snap()), true, anomalyRoll, draws, playerValid)
             else []))
    {
      var currentTime := now;
      if CooledDown(currentTime, lastPressTime, cooldownTime) {
        if gameManager == null {
          return;
        }
        gameManager.CheckAnswer(true, anomalyRoll, draws, playerValid);
        lastPressTime := currentTime;
      }
    }
  }
}
