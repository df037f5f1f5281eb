# Anomaly-spotting minigame: session engine, stage projection and input gates

This project models the core of a multiplayer anomaly-spotting minigame
built from Unity/UdonSharp scripts.

Players walk through a stage and answer one question at each pass: "is
there an anomaly?". The stage shows either its normal base object or one
of its anomaly variants.

- **Session engine.** The `GameManager` holds the success stack:
  - -1 means not started.
  - 0 up to the target minus one means in progress.
  - The target means cleared.

  It also holds the synced anomaly index (-1 for the normal stage) and a
  one-way ban flag. Each answer does three things in turn:
  - It is scored.
  - A new variant is picked.
  - The synced fields are projected onto the scene: which stage object is
    shown, which progress markers are lit, and where the player goes.
- **Per-stage projection.** `Stage` sets stage objects in place.
- **Picker.** `Utils` draws a variant index that never repeats the
  previous one.
- **Buttons.** Three button scripts gate player presses:
  - The first is a "no anomaly" answer button. It applies a cooldown,
    then counts rapid presses over a sliding window, which ends in a
    permanent ban.
  - The second is an "anomaly" answer button with its own cooldown.
  - The third is a start button. It shares the cooldown through the
    manager's press time.

## How the model is built

The modules follow the scripts:

| module | file | content |
|---|---|---|
| `Scene` | `scene.dfy` | GameObject references as `Slot` values; the `SetActive` patterns; the C# `byte`/`sbyte` casts |
| `Timing` | `timing.dfy` | the cooldown gate and its runs of presses |
| `Utils` | `utils.dfy` | the picker |
| `Stages` | `stage.dfy` | `class Stage` |
| `Session` | `game_manager.dfy` | `class GameManager` and the pure transitions that specify it |
| `NormalButton` | `button_for_normal.dfy` | the "no anomaly" button |
| `AnomalyButton` | `button_for_anomaly.dfy` | the "anomaly" button |
| `StartButton` | `button_for_start_game.dfy` | the start button |

**Scene objects.**
- Each GameObject reference is a `Slot`: `Missing` (null or invalid) or
  `Present(active)`.
- Arrays of GameObjects are `array<Slot>`, and the scripts' loops update
  them in place.

**The GameManager.**
- Everything it changes is seen through `Snap()`, a `Snapshot` value.
  The exception is its ghost `log` of requested side effects:
  network events, local sounds, music, teleports, ownership changes and
  serialization requests.
- The methods that change the snapshot as a whole ensure
  `Snap() == F(old(Snap()))` for a pure function `F`:

  | method | `F` |
  |---|---|
  | `ResetGame` | `AfterReset` |
  | `StartGame` | `AfterStart` |
  | `UpdateBySyncedVariables` | `Synced` |
  | `RequestSerializationForSuccessStack` | `Committed` |
  | `CheckAnswer` | `AfterAnswer` |
  | `ScoreAndRepick` | `Answered` |
  | `BanPlayer` | `AfterBan` |

  Their log grows by the matching event function.
- The helpers they call may change only the fields their frame names, and
  their contracts state just those fields:
  `UpdateBySuccessStack`, `UpdateProgressObjects`, `UpdateStage`,
  `ApplyScore`, `UpdateAnomalyStageIndex`, `RequestSerializationByOwner`
  and `BanBehaviour`.
- The lemmas about those functions carry the game's properties.

**The answer buttons.**
- The rapid-press gate of the "no anomaly" button is a pure state
  machine, `NormalButton.Press`, on a `Limiter` value.
- `ButtonForNormal.Interact` is proved to follow it.

**Inputs from outside the scripts.** Four things the scripts get from the
engine or the network are parameters of the model:
- **Randomness.** Unity's `Random.Range` is the stream `draws`: the values
  it would return, in order. Each one is a value `Random.Range` can
  return. The picker's do-while loop takes draws until one passes. The
  missing `CheckAnomalyProbability` roll is the boolean `anomalyRoll`.
- **Time.** `Time.time` is a `real` parameter `now`.
- **Validity checks.** `Utilities.IsValid(gameManager)` is `managerValid`.
  The local player's validity is `playerValid`.
- **Ownership.** It is the field `isOwner`, and `SetOwner` sets it.

**Integer widths.** Integers carry the C# widths explicitly:
- `successStack` and `anomalyStageIndex` are `sbyte`;
  `successStack++` wraps 127 to -128.
- `rapidPressCount++` is a `byte` increment.
- The picker's arguments are `byte` casts.

**The scripts do not line up.** The scripts are not all from the same
version:
- The buttons read `gameManager.isBanned` and `gameManager.lastPressTime`,
  but in `GameManager.cs` `isBanned` is private and there is no
  `lastPressTime`. The model makes both shared fields of `GameManager`.
- The start button passes `startStageIndex` to a parameterless
  `StartGame`. The model keeps `startStageIndex` as a field and calls the
  parameterless operation.

**Where the code and the game's design text differ, the model follows
the code:**
- **Banned players still score.** The design says a banned player's
  answers never change the success count. `CheckAnswer` never
  reads the ban flag, and neither does the anomaly button.
  `Session.BannedAnswersStillScore` shows a banned player's correct answer
  moving the stack past the target.
- **The cooldown stops 0.5 s presses.** The design's rate-limit example
  bans five presses 0.5 s apart. In the code, presses closer than
  the one-second cooldown are ignored before they are counted.
  `NormalButton.RapidPressesBan` shows that presses between one second and
  the window apart ban on the press that brings the counter to the limit.
  With a limit of 5 from a fresh counter, that is the fifth press.
- **Few checks inside the manager.** The design has the manager re-check
  ownership, the ban flag and the rate limit on every entry point. In the
  code, `CheckAnswer` checks none of the three. `StartGame` checks only
  the ban flag, and `ResetGame` checks only ownership. The rate limit is
  applied only by the "no anomaly" button.
- **Targets of 127 and above wrap.** The target is a byte, so it can be
  up to 255, but the stack is an sbyte.
  - With a target of exactly 127, a correct answer in the cleared state
    wraps the stack to -128, which is the pre-game phase
    (`Session.TargetOf127Wraps`).
  - With a target from 128 to 255, the game can never be cleared: a
    correct answer at 127 wraps the stack to -128 while the game is still
    in play (`Session.HighTargetNeverCleared`).

  The range lemma `Session.SessionRange` is therefore stated for targets
  below 127.

## Model

| member | source | states |
|---|---|---|
| `Scene.ToByte` | 3aScripts/Utils.cs:34 | the `(byte)` cast gives a value in 0..255 and leaves a byte unchanged |
| `Scene.ToSbyte` | 3aScripts/GameManager.cs:267 | the `(sbyte)` cast gives a value in -128..127, leaves an sbyte unchanged, and sends 128 (the increment of 127) to -128 |
| `Scene.ShowOnlyShowsAtMostOne` | 3aScripts/Stage.cs:67-94 | after "hide all, then show k": object j is active iff j == k and it is present; exactly one object is active when k indexes a present object, none otherwise (any other index, including -2 or >= length) |
| `Scene.CountLightUpTo` | 3aScripts/Stage.cs:101-107 | after lighting markers below n, the active markers are exactly the present ones among the first n |
| `Scene.ShowOnlyForgetsPriorState` | 3aScripts/Stage.cs:63-95 | the visibility UpdateStage leaves depends only on its argument and which objects exist, not on the prior active flags |
| `Scene.LightUpToForgetsPriorState` | 3aScripts/Stage.cs:97-108 | the visibility UpdateProgressObjects leaves depends only on its argument and which markers exist |
| `Scene.UpdatesIdempotent` | 3aScripts/Stage.cs:63-108 | applying either stage update twice gives the same result as once |
| `Timing.AcceptedPressesAreSpaced` | 3aScripts/ButtonForAnomaly.cs:17-23 | a cooldown gate that moves its press time on each accepted press never accepts two presses closer than the cooldown, for any press times |
| `Timing.PressTimeIsLastAccepted` | 3aScripts/ButtonForAnomaly.cs:18-22 | after a run of presses the gate's press time is that of the last accepted press, or its old value when none was accepted |
| `Timing.RunExtends` | 3aScripts/ButtonForAnomaly.cs:18-22 | one more press extends a run: the press time after `times + [now]` is one press step from the press time after `times`, and the accepted presses are those of `times` plus that press if accepted; with `AnomalyButton.ButtonForAnomaly.Interact`'s one-press contract, a run of presses follows the run functions |
| `Utils.FirstAccepted` | 3aScripts/Utils.cs:32-35 | the draw the retry loop stops at passes the exit test and is one of the draws |
| `Utils.GetRandomStageIndex` | 3aScripts/Utils.cs:29-37 | returns the first acceptable draw; it lies in [0, maxIndex) when maxIndex >= 1 and is 0 when maxIndex == 0; it differs from previousIndex unless that is 255; with 255 the first draw is returned |
| `Utils.ExitPossible` | 3aScripts/Utils.cs:32-35 | some value Random.Range can return passes the exit test iff maxIndex >= 2 or previousIndex != 0: with maxIndex <= 1 and previous index 0 the loop never returns |
| `Stages.Stage.constructor` | 3aScripts/Stage.cs:11-40 | a new stage holds exactly the given inspector fields (index, target, probability, base, variant and marker arrays, clear object) and is well formed, given distinct variant and marker arrays |
| `Stages.Stage.GetAnomalyStageCount` | 3aScripts/Stage.cs:58-61 | 0 for an unassigned variant array, its length otherwise (as a byte) |
| `Stages.Stage.UpdateStage` | 3aScripts/Stage.cs:63-95 | base shown iff the index is -1; the variant array becomes "only variant k shown" with no out-of-range write |
| `Stages.Stage.UpdateProgressObjects` | 3aScripts/Stage.cs:97-108 | marker i is switched on iff i < successStack, missing markers are skipped, no length check against the target |
| `Stages.Stage.ToggleClearObjects` | 3aScripts/Stage.cs:125-130 | the clear object takes the given flag when it exists and is untouched otherwise |
| `Stages.Stage.Reset` | 3aScripts/Stage.cs:118-123 | base active, no variant active, no marker active, clear object inactive |
| `Session.IsCorrect` | 3aScripts/GameManager.cs:261-263 | an answer is correct iff "anomaly" is claimed exactly when the anomaly index is not -1 |
| `Session.Score` | 3aScripts/GameManager.cs:265-277 | a wrong answer sets the stack to 0, a correct one adds 1 below 127 and wraps 127 to -128 |
| `Session.AnswerEvents` | 3aScripts/GameManager.cs:268-276 | the correct sound is broadcast iff the answer is correct and the new stack is in [0, target); the wrong sound iff the answer is wrong; at most one sound |
| `Session.Repick` | 3aScripts/GameManager.cs:282-294 | the new anomaly index is -1 on a negative roll, in [0, variant count) on a positive one, and differs from a previous non-negative index |
| `Session.GameManager.constructor` | 3aScripts/GameManager.cs:75-81 | a new manager has stack -1, anomaly index -1, not banned, no events |
| `Session.GameManager.ResetGame` | 3aScripts/GameManager.cs:88-97 | the owner sets stack and index to -1 and commits; a non-owner changes nothing |
| `Session.GameManager.StartGame` | 3aScripts/GameManager.cs:98-111 | banned: only the ban behaviour; otherwise stack 0, the start sound when a sound component exists, then the commit |
| `Session.GameManager.UpdateBySuccessStack` | 3aScripts/GameManager.cs:143-187 | for a valid player: clamp at the target and the clear, in-game or pre-game teleport and music; nothing for an invalid player |
| `Session.GameManager.UpdateProgressObjects` | 3aScripts/GameManager.cs:188-199 | markers lit iff i < successStack when there is one marker per success, untouched otherwise |
| `Session.GameManager.UpdateStage` | 3aScripts/GameManager.cs:200-216 | all variants hidden, then the base shown for -1 or variant k shown and the base hidden |
| `Session.GameManager.UpdateBySyncedVariables` | 3aScripts/GameManager.cs:218-228 | a banned client runs only the ban behaviour; anyone else projects stage, progress and phase |
| `Session.GameManager.RequestSerializationForSuccessStack` | 3aScripts/GameManager.cs:229-233 | local projection, then serialization as the owner |
| `Session.GameManager.RequestSerializationByOwner` | 3aScripts/GameManager.cs:246-257 | the client is the owner afterwards; ownership is taken first when it was not |
| `Session.GameManager.CheckAnswer` | 3aScripts/GameManager.cs:259-280 | the new state is the scored, re-picked and committed one; the log gets the answer sound then the commit's events |
| `Session.GameManager.ScoreAndRepick` | 3aScripts/GameManager.cs:261-278 | the stack and anomaly index become the scored and re-picked ones, with the answer sound logged; nothing else changes |
| `Session.GameManager.ApplyScore` | 3aScripts/GameManager.cs:265-277 | the stack becomes the score and the answer sound is broadcast |
| `Session.GameManager.UpdateAnomalyStageIndex` | 3aScripts/GameManager.cs:282-294 | the index becomes the re-pick from the picker's first acceptable draw |
| `Session.GameManager.BanPlayer` | 3aScripts/GameManager.cs:325-329 | sets the ban flag, changes nothing else, then runs the ban teleport |
| `Session.GameManager.BanBehaviour` | 3aScripts/GameManager.cs:331-341 | a banned valid player is sent to the ban point; otherwise nothing |
| `Session.ExactlyOneStageShown` | 3aScripts/GameManager.cs:200-216 | after projection the base is shown iff the index is -1, variant j iff j is the index, and exactly one stage object is active |
| `Session.ProgressShowsStack` | 3aScripts/GameManager.cs:188-199 | with one marker per success, marker j is lit iff j < stack (and it exists); when every marker exists and the stack is in 0..target, exactly `successStack` markers are lit |
| `Session.ProjectionIdempotent` | 3aScripts/GameManager.cs:188-228 | projecting twice gives the same state as projecting once, clamp included |
| `Session.ProjectionConverges` | 3aScripts/GameManager.cs:218-237 | with one marker per success, two unbanned clients with the same player validity that apply the same synced fields, and whose scenes have the same objects present, end with the same stack and the same visible objects, whatever they showed before |
| `Session.AnswerScoring` | 3aScripts/GameManager.cs:265-277 | after the whole CheckAnswer, a wrong answer leaves stack 0; a correct one from a stack in -1..target-1 that is also below 127 leaves stack + 1 (at 127 the sbyte wraps) |
| `Session.SessionRange` | 3aScripts/GameManager.cs:259-280 | for a target below 127 and an unbanned valid player, answers and starts keep the stack in 0..target, resets and projections in -1..target, and an answer keeps the state well formed |
| `Session.TargetOf127Wraps` | 3aScripts/GameManager.cs:148-150 | with target 127, a correct answer from the cleared state wraps the stack to -128 (pre-game) |
| `Session.HighTargetNeverCleared` | 3aScripts/GameManager.cs:27 | with a byte target of 128 or more, no answer ever reaches the cleared phase, and a correct answer at 127 wraps the stack to -128 (pre-game) |
| `Session.BannedAnswersStillScore` | 3aScripts/GameManager.cs:259-267 | for a target below 127, a banned player's correct answer at the target moves the stack to target + 1 |
| `Session.BanIsPermanent` | 3aScripts/GameManager.cs:325-329 | BanPlayer sets the flag; reset, start, answer and projection never change it; a banned client's start and projection change nothing |
| `Session.ResetOutcome` | 3aScripts/GameManager.cs:88-97 | owner reset gives -1/-1; a non-owner reset changes nothing and logs nothing |
| `Session.StartOutcome` | 3aScripts/GameManager.cs:98-105 | a banned start changes nothing and only runs the ban behaviour; otherwise the stack is 0, the index and ban flag are kept |
| `Session.ClampToTarget` | 3aScripts/GameManager.cs:146-150 | a valid player's stack at or above the target becomes the target, otherwise it stays; the phase never changes |
| `Session.PhaseTeleports` | 3aScripts/GameManager.cs:148-186 | a valid player goes to the exit iff the stack is at least the target, to the start point iff it is in 0..target-1, to the spawn iff it is negative; an invalid player is not moved |
| `NormalButton.BanIsFinal` | 3aScripts/ButtonForNormal.cs:25-28 | once banned, presses submit nothing and change neither counter nor time |
| `NormalButton.LastPressNeverDecreases` | 3aScripts/ButtonForNormal.cs:30-51 | over any run of presses, the shared press time never goes backwards |
| `NormalButton.RapidPressesBan` | 3aScripts/ButtonForNormal.cs:35-48 | presses between one second and the window apart ban the player on the press that brings the counter to the limit, after submitting every earlier press |
| `NormalButton.SlowPressesNeverBan` | 3aScripts/ButtonForNormal.cs:35-51 | with a ban limit of at least 2, presses each at least the one-second cooldown and more than the window after the previous one are all submitted, never banned, and leave the counter at 1 |
| `NormalButton.ButtonForNormal.constructor` | 3aScripts/ButtonForNormal.cs:13 | a new button has counter 0 |
| `NormalButton.ButtonForNormal.Interact` | 3aScripts/ButtonForNormal.cs:23-53 | banned: only deactivates; within the cooldown or with an invalid manager: nothing; counter reaching the limit (`>=`): ban without answer or time update; otherwise CheckAnswer(false) once and the time moves to now |
| `AnomalyButton.ButtonForAnomaly.constructor` | 3aScripts/ButtonForAnomaly.cs:12-13 | cooldown 1 s and press time 0 |
| `AnomalyButton.ButtonForAnomaly.Interact` | 3aScripts/ButtonForAnomaly.cs:15-24 | past its own cooldown with a manager: CheckAnswer(true) once and the time moves; otherwise nothing; never changes the ban flag; for one press, its press time is the cooldown gate's `PressTimeAfter` and it answers exactly when `AcceptedPresses` accepts the press |
| `StartButton.StartPressOutcome` | 3aScripts/ButtonForStartGame.cs:35-42 | an accepted start press gives stack 0, ownership and press time now, and, for a valid player and a target above 0, a teleport to the start point (with target 0 it is the exit); a banned or early press changes nothing |
| `StartButton.StartPressHoldsBackAnswers` | 3aScripts/ButtonForStartGame.cs:41 | for one second after an accepted start press, even one with an invalid manager, the "no anomaly" button ignores every press |
| `StartButton.ButtonForStartGame.constructor` | 3aScripts/ButtonForStartGame.cs:11-16 | a new button holds exactly the given manager and byte start index, and its GameObject is active |
| `StartButton.ButtonForStartGame.Interact` | 3aScripts/ButtonForStartGame.cs:28-43 | banned: only deactivates; past the shared cooldown: StartGame when the manager is valid, and the press time moves either way; otherwise nothing |

## Left out

- Enemy.cs is not part of this model. It covers motion, physics triggers
  and gizmos, and its only link to the core is a call to
  `CheckAnswer(false)`, which any caller of `CheckAnswer` represents.
- SoundEffect.cs and Bgm.cs are not part of this model. They only play
  audio; their calls are entries in the event log.
- `PlayStartSound`, `PlayCorrectSound`, `PlayWrongSound` and
  `PlayClearSound` run on each client when a broadcast arrives. Only the
  broadcast is logged.
- Networking is left out: replication order, `OnDeserialization`,
  `OnPlayerJoined` and concurrent owners. Both handlers only run
  `UpdateBySyncedVariables`, which is modelled. Ownership changes take
  effect at once.
- The `Start` methods, `ValidateVariables`/`ValidateProgressObjects`,
  `GetStageIndex` and `Stage.TeleportPlayerToStartPoint` are left out.
  They deal with start-up and diagnostics, are trivial getters, or are
  teleports.
  - `ValidateProgressObjects` also hides the progress markers at start-up.
    The model keeps the markers the constructor was given instead. When
    there is one marker per success, the next projection sets them all.
    Otherwise the source leaves them hidden and the model keeps them as
    given.
- The null guards on the music component and the exit, start and spawn
  points are left out: the log shows the request either way. Only the
  sound component's guard is modelled, as `soundEffectAssigned`.
- Session.GameManager.BanBehaviour: logs `Teleport(BanRespawn)` for every
  banned valid player. The source has no null guard on the ban respawn
  point, so with the point unassigned it throws instead.
- Random sources are not modelled: `Random.Range`, the unused seeded
  `System.Random` and the missing `CheckAnomalyProbability`. They become
  the `draws` stream and the `anomalyRoll` input, constrained only by
  their range.
- `Time.time` is a `real`, not a 32-bit float: rounding is not modelled.
- `Debug.Log`/`Debug.LogError` are left out.
- Session.GameManager.CheckAnswer: requires the picker to be able to
  return, and at least one variant when the roll is positive. With no
  variant the source indexes an empty array, and with a single variant
  already shown its loop never returns.
  - `Utils.ExitPossible` states exactly when that loop can return.
- Session.GameManager.UpdateStage: requires the anomaly index to be -1 or
  in range, at most 128 variants and every variant and the base present.
  The source throws on a null stage object or an out-of-range index. The
  sbyte cast of a picked index of 128 or more would be negative. These
  conditions are part of `WellFormed`.
- Stages.Stage.UpdateStage: requires an assigned variant array. The source
  throws when iterating over a null array.
- Stages.Stage.UpdateProgressObjects: requires fewer than 256 markers. The
  source's byte loop counter never reaches a larger length, so its loop
  never ends.
- Session.SessionRange: stated only for targets below 127. At 127 the
  sbyte stack wraps from the cleared state (`Session.TargetOf127Wraps`).
  From 128 to 255 it wraps before the target is reached
  (`Session.HighTargetNeverCleared`).
- Aliasing among scene objects is not modelled. The model assumes that the
  base, variant and marker slots all refer to distinct GameObjects. The
  inspector arrays could list one GameObject twice, or share the base
  object with a variant. Then the source's later `SetActive` on one slot
  also changes the other.
  - Example: variants `[A, A]` shown at index 0 leave A active in
    the source. `ShowOnly` reports slot 1 as off.
  - `Scene.ShowOnlyShowsAtMostOne` and `Session.ExactlyOneStageShown`
    therefore count slots, not objects.
- An unassigned progress array in the `GameManager` is modelled as an
  empty one. Both leave the markers untouched.
