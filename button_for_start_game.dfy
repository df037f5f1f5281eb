/** The start button (ButtonForStartGame.cs): disabled for a banned player,
    otherwise gated by the cooldown shared with the answer buttons through
    the GameManager's press time. */
module StartButton {
  import opened Scene
  import opened Timing
  import opened Session
  import NormalButton

  /** COOLDOWN_TIME: one second. */
  const CooldownTime: real := 1.0

  /** The GameManager after a start press: a press past the cooldown starts
      the game when the manager is valid and moves the press time either way. */
  function AfterStartPress(c: Config, s: Snapshot, now: real, managerValid: bool, playerValid: bool): Snapshot {
    if s.isBanned || !CooledDown(now, s.lastPressTime, CooldownTime) then s
    else (if managerValid then AfterStart(c, s, playerValid) else s).(lastPressTime := now)
  }

  function StartPressLog(c: Config, s: Snapshot, now: real, managerValid: bool, playerValid: bool): seq<Event> {
    if s.isBanned || !CooledDown(now, s.lastPressTime, CooldownTime) || !managerValid then []
    else StartEvents(c, s, playerValid)
  }

  /** An accepted start press by an unbanned player begins a session at
      stack 0, owned by this client, with the anomaly index untouched and
      the press time moved to `now`; a valid player with a non-zero target is
      sent to the game-start point. A press within the cooldown, or by a
      banned player, changes nothing and requests nothing. */
  lemma StartPressOutcome(c: Config, s: Snapshot, now: real, playerValid: bool)
    requires ConfigOk(c) && WellFormed(s)
    ensures var r := AfterStartPress(c, s, now, true, playerValid);
      if !s.isBanned && CooledDown(now, s.lastPressTime, CooldownTime) then
        r.successStack == 0 && r.isOwner && !r.isBanned && r.lastPressTime == now &&
        r.anomalyStageIndex == s.anomalyStageIndex &&
        (playerValid && c.maxSuccessStack > 0 ==> Teleport(GameStart) in StartPressLog(c, s, now, true, playerValid))
      else r == s && StartPressLog(c, s, now, true, playerValid) == []
  {
    if !s.isBanned && CooledDown(now, s.lastPressTime, CooldownTime) && playerValid && c.maxSuccessStack > 0 {
      var e := StartPressLog(c, s, now, true, playerValid);
      var pre := if c.soundEffectAssigned then [Broadcast(StartSound)] else [];
      assert e == pre + [Teleport(GameStart), PlayBgm(InGameBgm)] + OwnerEvents(s.isOwner);
      assert e[|pre|] == Teleport(GameStart);
    }
  }

  /** The press time is shared: for a second after an accepted start press
      the "no anomaly" button ignores every press. */
  lemma StartPressHoldsBackAnswers(c: Config, s: Snapshot, now: real, t: real, rapidPressCount: int,
                                   managerValid: bool, playerValid: bool)
    requires !s.isBanned && CooledDown(now, s.lastPressTime, CooldownTime)
    requires now <= t < now + CooldownTime
    ensures var r := AfterStartPress(c, s, now, managerValid, playerValid);
      NormalButton.Judge(r.isBanned, t, r.lastPressTime, rapidPressCount, true, c.rapidPressWindow,
                         c.maxRapidPresses) == NormalButton.Ignore
  {
  }

  class ButtonForStartGame {
    const gameManager: GameManager
    /** Inspector setting; StartGame takes no stage index, so it has no effect. */
    const startStageIndex: int
    /** the button's own GameObject */
    var active: bool

    ghost predicate Valid()
      reads this, gameManager, gameManager.anomalyStages, gameManager.progressObjects
    {
      gameManager.Valid() && IsByte(startStageIndex)
    }

    constructor (gameManager: GameManager, startStageIndex: int)
      requires gameManager.Valid() && IsByte(startStageIndex)
      ensures Valid()
      ensures this.gameManager == gameManager && this.startStageIndex == startStageIndex && active
    {
      this.gameManager := gameManager;
      this.startStageIndex := startStageIndex;
      active := true;
    }

    /** A press at time `now`; `managerValid` is Utilities.IsValid(gameManager). */
    method Interact(now: real, managerValid: bool, playerValid: bool)
      requires Valid()
      modifies this, gameManager, gameManager.anomalyStages, gameManager.progressObjects
      ensures Valid()
      ensures active == (!old(gameManager.isBanned) && old(active))
      ensures gameManager.Snap() == AfterStartPress(gameManager.Cfg(), old(gameManager.Snap()), now, managerValid, playerValid)
      ensures gameManager.log ==
              old(gameManager.log) + StartPressLog(gameManager.Cfg(), old(gameManager.Snap()), now, managerValid, playerValid)
    {
      if gameManager.isBanned {
        active := false;
        return;
      }
      var currentTime := now;
      if CooledDown(currentTime, gameManager.lastPressTime, CooldownTime) {
        if managerValid {
          gameManager.StartGame(playerValid);
        }
        gameManager.lastPressTime := currentTime;
      }
    }
  }
}
