/** The session engine (GameManager.cs).

    The synced fields are `successStack` (-1 before the game, 0 up to
    maxSuccessStack - 1 in play, maxSuccessStack once cleared) and
    `anomalyStageIndex` (-1 while the normal stage is shown). Everything a
    GameManager method changes, apart from its event log, is captured by a
    `Snapshot`; each method is specified by a pure transition on snapshots,
    and the properties of the game are lemmas about those transitions.

    Network events, serialization, ownership transfer, sounds, music and
    teleports are entries of a ghost event log. Ownership is the field
    `isOwner`; whether the local player is valid is the parameter
    `playerValid`; `utils.CheckAnomalyProbability()` is the input
    `anomalyRoll` and the values of `Random.Range` the input `draws`. */
module Session {
  import opened Scene
  import opened Utils

  datatype Sound = StartSound | CorrectSound | WrongSound | ClearSound
  datatype Track = PreGameBgm | InGameBgm | ClearBgm
  datatype Point = InitialSpawn | GameStart | Exit | BanRespawn

  /** Side effects, in the order the GameManager requests them. */
  datatype Event =
    | Broadcast(sound: Sound)   // SendCustomNetworkEvent(All, PlayXSound)
    | PlayLocal(sound: Sound)   // a sound played on this client only
    | PlayBgm(track: Track)
    | Teleport(point: Point)
    | TakeOwnership             // Networking.SetOwner(LocalPlayer, gameObject)
    | Serialize                 // RequestSerialization()

  /** Inspector settings; never changed at run time. */
  datatype Config = Config(maxSuccessStack: int, maxRapidPresses: int, rapidPressWindow: real,
                           soundEffectAssigned: bool)

  /** The state of a GameManager and of the scene objects it toggles. */
  datatype Snapshot = Snapshot(successStack: int, anomalyStageIndex: int, isBanned: bool,
                               isOwner: bool, lastPressTime: real,
                               baseStage: Slot, anomalyStages: seq<Slot>, progressObjects: seq<Slot>)

  predicate ConfigOk(c: Config) {
    IsByte(c.maxSuccessStack) && IsByte(c.maxRapidPresses)
  }

  /** The GameManager dereferences the base stage and every anomaly stage
      without a check, and indexes the anomaly stages with the synced index;
      indices are sbytes, so at most 128 anomaly stages are reachable. */
  predicate WellFormed(s: Snapshot) {
    IsSbyte(s.successStack) &&
    s.baseStage.Present? &&
    |s.anomalyStages| <= 128 &&
    (forall j :: 0 <= j < |s.anomalyStages| ==> s.anomalyStages[j].Present?) &&
    (s.anomalyStageIndex == -1 || 0 <= s.anomalyStageIndex < |s.anomalyStages|)
  }

  // ---------------------------------------------------------------------
  // Projection of the synced fields (UpdateBySyncedVariables)

  datatype Phase = PreGame | InGame | Cleared

  function PhaseOf(successStack: int, maxSuccessStack: int): Phase {
    if successStack >= maxSuccessStack then Cleared
    else if successStack >= 0 then InGame
    else PreGame
  }

  /** The clamp of UpdateBySuccessStack, done only for a valid local player. */
  function Settle(successStack: int, maxSuccessStack: int, playerValid: bool): int {
    if playerValid && successStack >= maxSuccessStack then ToSbyte(maxSuccessStack) else successStack
  }

  function PhaseEvents(c: Config, successStack: int, playerValid: bool): seq<Event> {
    if !playerValid then []
    else match PhaseOf(successStack, c.maxSuccessStack)
      case Cleared =>
        (if c.soundEffectAssigned then [PlayLocal(ClearSound)] else []) + [Teleport(Exit), PlayBgm(ClearBgm)]
      case InGame => [Teleport(GameStart), PlayBgm(InGameBgm)]
      case PreGame => [Teleport(InitialSpawn), PlayBgm(PreGameBgm)]
  }

  /** The progress markers are only touched when there is one per success. */
  function ProjectProgress(progress: seq<Slot>, successStack: int, maxSuccessStack: int): seq<Slot> {
    if |progress| == maxSuccessStack then LightUpTo(progress, successStack) else progress
  }

  function BanEvents(isBanned: bool, playerValid: bool): seq<Event> {
    if isBanned && playerValid then [Teleport(BanRespawn)] else []
  }

  /** UpdateBySyncedVariables: a banned client only runs the ban behaviour;
      any other client shows the stage, the progress and the phase. */
  function Synced(c: Config, s: Snapshot, playerValid: bool): Snapshot {
    if s.isBanned then s
    else s.(baseStage := SetActive(s.baseStage, s.anomalyStageIndex == -1),
            anomalyStages := ShowOnly(s.anomalyStages, s.anomalyStageIndex),
            progressObjects := ProjectProgress(s.progressObjects, s.successStack, c.maxSuccessStack),
            successStack := Settle(s.successStack, c.maxSuccessStack, playerValid))
  }

  function SyncEvents(c: Config, s: Snapshot, playerValid: bool): seq<Event> {
    if s.isBanned then BanEvents(true, playerValid) else PhaseEvents(c, s.successStack, playerValid)
  }

  function OwnerEvents(isOwner: bool): seq<Event> {
    if isOwner then [Serialize] else [TakeOwnership, Serialize]
  }

  /** RequestSerializationForSuccessStack: project locally, then serialize
      as the owner, taking ownership first when needed. */
  function Committed(c: Config, s: Snapshot, playerValid: bool): Snapshot {
    Synced(c, s, playerValid).(isOwner := true)
  }

  function CommitEvents(c: Config, s: Snapshot, playerValid: bool): seq<Event> {
    SyncEvents(c, s, playerValid) + OwnerEvents(s.isOwner)
  }

  // ---------------------------------------------------------------------
  // The operations

  function AfterReset(c: Config, s: Snapshot, playerValid: bool): Snapshot {
    if s.isOwner then Committed(c, s.(successStack := -1, anomalyStageIndex := -1), playerValid) else s
  }

  function ResetEvents(c: Config, s: Snapshot, playerValid: bool): seq<Event> {
    if s.isOwner then CommitEvents(c, s.(successStack := -1, anomalyStageIndex := -1), playerValid) else []
  }

  function AfterStart(c: Config, s: Snapshot, playerValid: bool): Snapshot {
    if s.isBanned then s else Committed(c, s.(successStack := 0), playerValid)
  }

  function StartEvents(c: Config, s: Snapshot, playerValid: bool): seq<Event> {
    if s.isBanned then BanEvents(true, playerValid)
    else (if c.soundEffectAssigned then [Broadcast(StartSound)] else []) +
         CommitEvents(c, s.(successStack := 0), playerValid)
  }

  /** The correctness test of CheckAnswer. */
  function IsCorrect(hasAnomaly: bool, anomalyStageIndex: int): (r: bool)
    ensures r <==> (hasAnomaly <==> anomalyStageIndex != -1)
  {
    var isValidNormal := anomalyStageIndex == -1 && !hasAnomaly;
    var isValidAnomaly := anomalyStageIndex != -1 && hasAnomaly;
    isValidNormal || isValidAnomaly
  }

  /** The new success stack: an sbyte increment for a correct answer, 0 for a wrong one. */
  function Score(successStack: int, correct: bool): (r: int)
    requires IsSbyte(successStack)
    ensures IsSbyte(r)
    ensures !correct ==> r == 0
    ensures correct && successStack < 127 ==> r == successStack + 1
    ensures correct && successStack == 127 ==> r == -128
  {
    if correct then ToSbyte(successStack + 1) else 0
  }

  /** The sound broadcast for an answer: the correct sound only while the
      new stack is still in play, the wrong sound for every wrong answer. */
  function AnswerEvents(correct: bool, scored: int, maxSuccessStack: int): (e: seq<Event>)
    ensures Broadcast(CorrectSound) in e <==> correct && 0 <= scored < maxSuccessStack
    ensures Broadcast(WrongSound) in e <==> !correct
    ensures |e| <= 1
  {
    if correct then (if scored < maxSuccessStack && scored >= 0 then [Broadcast(CorrectSound)] else [])
    else [Broadcast(WrongSound)]
  }

  /** The byte handed to the picker as the previous index. */
  function PreviousIndex(anomalyStageIndex: int): int {
    if anomalyStageIndex == -1 then NoPrevious else ToByte(anomalyStageIndex)
  }

  /** What a positive anomaly roll needs: a variant to show (the source
      would index an empty array otherwise), every draw a value
      Random.Range can return, and a draw the picker keeps (the source's
      loop would not return otherwise). */
  predicate PickerReady(anomalyCount: int, anomalyStageIndex: int, draws: seq<int>) {
    1 <= anomalyCount &&
    (forall k :: 0 <= k < |draws| ==> InDrawRange(draws[k], ToByte(anomalyCount))) &&
    Exits(draws, PreviousIndex(anomalyStageIndex))
  }

  /** UpdateAnomalyStageIndex: -1 for a negative roll, otherwise a variant
      index that differs from the previous variant, if there was one. */
  function Repick(anomalyCount: int, anomalyStageIndex: int, anomalyRoll: bool, draws: seq<int>): (r: int)
    requires anomalyCount <= 128
    requires anomalyStageIndex == -1 || 0 <= anomalyStageIndex < anomalyCount
    requires anomalyRoll ==> PickerReady(anomalyCount, anomalyStageIndex, draws)
    ensures !anomalyRoll ==> r == -1
    ensures anomalyRoll ==> 0 <= r < anomalyCount
    ensures r >= 0 && anomalyStageIndex >= 0 ==> r != anomalyStageIndex
  {
    if anomalyRoll then ToSbyte(FirstAccepted(draws, PreviousIndex(anomalyStageIndex))) else -1
  }

  predicate AnswerReady(s: Snapshot, anomalyRoll: bool, draws: seq<int>) {
    WellFormed(s) && (anomalyRoll ==> PickerReady(|s.anomalyStages|, s.anomalyStageIndex, draws))
  }

  /** CheckAnswer before its commit: scored and re-picked. */
  function Answered(s: Snapshot, hasAnomaly: bool, anomalyRoll: bool, draws: seq<int>): Snapshot
    requires AnswerReady(s, anomalyRoll, draws)
  {
    s.(successStack := Score(s.successStack, IsCorrect(hasAnomaly, s.anomalyStageIndex)),
       anomalyStageIndex := Repick(|s.anomalyStages|, s.anomalyStageIndex, anomalyRoll, draws))
  }

  function AfterAnswer(c: Config, s: Snapshot, hasAnomaly: bool, anomalyRoll: bool, draws: seq<int>,
                       playerValid: bool): Snapshot
    requires AnswerReady(s, anomalyRoll, draws)
  {
    Committed(c, Answered(s, hasAnomaly, anomalyRoll, draws), playerValid)
  }

  function AnswerLog(c: Config, s: Snapshot, hasAnomaly: bool, anomalyRoll: bool, draws: seq<int>,
                     playerValid: bool): seq<Event>
    requires AnswerReady(s, anomalyRoll, draws)
  {
    var a := Answered(s, hasAnomaly, anomalyRoll, draws);
    AnswerEvents(IsCorrect(hasAnomaly, s.anomalyStageIndex), a.successStack, c.maxSuccessStack) +
    CommitEvents(c, a, playerValid)
  }

  function AfterBan(s: Snapshot): Snapshot {
    s.(isBanned := true)
  }

  /** Logging in two steps is logging the concatenation (sequence
      associativity, stated once so that the methods that log before a
      commit verify quickly). */
  lemma LogAppends(log: seq<Event>, first: seq<Event>, second: seq<Event>)
    ensures log + first + second == log + (first + second)
  {
  }

  // ---------------------------------------------------------------------
  // The GameManager object

  class GameManager {
    const maxSuccessStack: int
    const maxRapidPresses: int
    const rapidPressWindow: real
    const soundEffectAssigned: bool
    const anomalyStages: array<Slot>
    /** An unassigned progress array behaves as an empty one here. */
    const progressObjects: array<Slot>
    var baseStage: Slot
    var successStack: int
    var anomalyStageIndex: int
    var isBanned: bool
    var isOwner: bool
    /** Time of the last accepted answer or start press, shared by the buttons. */
    var lastPressTime: real
    ghost var log: seq<Event>

    function Cfg(): Config {
      Config(maxSuccessStack, maxRapidPresses, rapidPressWindow, soundEffectAssigned)
    }

    ghost function Snap(): Snapshot
      reads this, anomalyStages, progressObjects
    {
      Snapshot(successStack, anomalyStageIndex, isBanned, isOwner, lastPressTime,
               baseStage, anomalyStages[..], progressObjects[..])
    }

    ghost predicate Valid()
      reads this, anomalyStages, progressObjects
    {
      ConfigOk(Cfg()) && WellFormed(Snap()) && anomalyStages != progressObjects
    }

    constructor (maxSuccessStack: int, maxRapidPresses: int, rapidPressWindow: real, soundEffectAssigned: bool,
                 baseStage: Slot, anomalyStages: array<Slot>, progressObjects: array<Slot>, isOwner: bool)
      requires IsByte(maxSuccessStack) && IsByte(maxRapidPresses)
      requires baseStage.Present? && anomalyStages.Length <= 128
      requires forall j :: 0 <= j < anomalyStages.Length ==> anomalyStages[j].Present?
      requires anomalyStages != progressObjects
      ensures Valid()
      ensures Cfg() == Config(maxSuccessStack, maxRapidPresses, rapidPressWindow, soundEffectAssigned)
      ensures this.anomalyStages == anomalyStages && this.progressObjects == progressObjects
      ensures Snap() == Snapshot(-1, -1, false, isOwner, 0.0, baseStage, anomalyStages[..], progressObjects[..])
      ensures log == []
    {
      this.maxSuccessStack := maxSuccessStack;
      this.maxRapidPresses := maxRapidPresses;
      this.rapidPressWindow := rapidPressWindow;
      this.soundEffectAssigned := soundEffectAssigned;
      this.baseStage := baseStage;
      this.anomalyStages := anomalyStages;
      this.progressObjects := progressObjects;
      this.isOwner := isOwner;
      successStack := -1;
      anomalyStageIndex := -1;
      isBanned := false;
      lastPressTime := 0.0;
      log := [];
    }

    /** Only the owner resets; anyone else changes nothing. */
    method ResetGame(playerValid: bool)
      requires Valid()
      modifies this, anomalyStages, progressObjects
      ensures Valid()
      ensures Snap() == AfterReset(Cfg(), old(Snap()), playerValid)
      ensures log == old(log) + ResetEvents(Cfg(), old(Snap()), playerValid)
    {
      if isOwner {
        successStack := -1;
        anomalyStageIndex := -1;
        RequestSerializationForSuccessStack(playerValid);
      }
    }

    method StartGame(playerValid: bool)
      requires Valid()
      modifies this, anomalyStages, progressObjects
      ensures Valid()
      ensures Snap() == AfterStart(Cfg(), old(Snap()), playerValid)
      ensures log == old(log) + StartEvents(Cfg(), old(Snap()), playerValid)
    {
      if isBanned {
        BanBehaviour(playerValid);
        return;
      }
      successStack := 0;
      ghost var sound: seq<Event> := if soundEffectAssigned then [Broadcast(StartSound)] else [];
      if soundEffectAssigned {
        log := log + [Broadcast(StartSound)];
      }
      ghost var commit := CommitEvents(Cfg(), Snap(), playerValid);
      RequestSerializationForSuccessStack(playerValid);
      LogAppends(old(log), sound, commit);
    }

    /** Applies the clamp and requests the phase's teleport, sound and music. */
    method UpdateBySuccessStack(playerValid: bool)
      requires Valid()
      modifies this`successStack, this`log
      ensures Valid()
      ensures successStack == Settle(old(successStack), maxSuccessStack, playerValid)
      ensures log == old(log) + PhaseEvents(Cfg(), old(successStack), playerValid)
    {
      if !playerValid {
        return;
      }
      if successStack >= maxSuccessStack {
        successStack := ToSbyte(maxSuccessStack);
        if soundEffectAssigned {
          log := log + [PlayLocal(ClearSound)];
        }
        log := log + [Teleport(Exit)];
        log := log + [PlayBgm(ClearBgm)];
      } else if successStack >= 0 {
        log := log + [Teleport(GameStart)];
        log := log + [PlayBgm(InGameBgm)];
      } else {
        log := log + [Teleport(InitialSpawn)];
        log := log + [PlayBgm(PreGameBgm)];
      }
    }

    /** Lights progress marker i exactly when i < successStack, provided
        there is one marker per success. */
    method UpdateProgressObjects()
      requires Valid()
      modifies progressObjects
      ensures Valid()
      ensures progressObjects[..] == ProjectProgress(old(progressObjects[..]), successStack, maxSuccessStack)
    {
      var objs := progressObjects;
      if objs.Length != maxSuccessStack {
        return;
      }
      var i := 0;
      while i < objs.Length
        invariant 0 <= i <= objs.Length
        invariant forall j :: 0 <= j < i ==> objs[j] == SetActive(old(objs[j]), j < successStack)
        invariant forall j :: i <= j < objs.Length ==> objs[j] == old(objs[j])
      {
        if objs[i].Present? {
          objs[i] := Present(i < successStack);
        }
        i := i + 1;
      }
      assert forall j :: 0 <= j < objs.Length ==>
        objs[..][j] == LightUpTo(old(objs[..]), successStack)[j];
    }

    /** Hides every anomaly stage, then shows the base stage for -1 or the
        anomaly stage at the synced index. */
    method UpdateStage()
      requires Valid()
      modifies this`baseStage, anomalyStages
      ensures Valid()
      ensures baseStage == SetActive(old(baseStage), anomalyStageIndex == -1)
      ensures anomalyStages[..] == ShowOnly(old(anomalyStages[..]), anomalyStageIndex)
    {
      var stages := anomalyStages;
      var i := 0;
      while i < stages.Length
        invariant 0 <= i <= stages.Length
        invariant baseStage == old(baseStage)
        invariant forall j :: 0 <= j < i ==> stages[j] == SetActive(old(stages[j]), false)
        invariant forall j :: i <= j < stages.Length ==> stages[j] == old(stages[j])
      {
        stages[i] := SetActive(stages[i], false);
        i := i + 1;
      }
      if anomalyStageIndex == -1 {
        baseStage := SetActive(baseStage, true);
      } else {
        baseStage := SetActive(baseStage, false);
        stages[anomalyStageIndex] := SetActive(stages[anomalyStageIndex], true);
      }
      assert forall j :: 0 <= j < stages.Length ==>
        stages[..][j] == ShowOnly(old(stages[..]), anomalyStageIndex)[j];
    }

    method UpdateBySyncedVariables(playerValid: bool)
      requires Valid()
      modifies this, anomalyStages, progressObjects
      ensures Valid()
      ensures Snap() == Synced(Cfg(), old(Snap()), playerValid)
      ensures log == old(log) + SyncEvents(Cfg(), old(Snap()), playerValid)
    {
      if isBanned {
        BanBehaviour(playerValid);
        return;
      }
      UpdateStage();
      UpdateProgressObjects();
      UpdateBySuccessStack(playerValid);
    }

    method RequestSerializationForSuccessStack(playerValid: bool)
      requires Valid()
      modifies this, anomalyStages, progressObjects
      ensures Valid()
      ensures Snap() == Committed(Cfg(), old(Snap()), playerValid)
      ensures log == old(log) + CommitEvents(Cfg(), old(Snap()), playerValid)
    {
      UpdateBySyncedVariables(playerValid);
      RequestSerializationByOwner();
    }

    method RequestSerializationByOwner()
      modifies this`isOwner, this`log
      ensures isOwner
      ensures log == old(log) + OwnerEvents(old(isOwner))
    {
      if isOwner {
        log := log + [Serialize];
      } else {
        isOwner := true;
        log := log + [TakeOwnership];
        log := log + [Serialize];
      }
    }

    method CheckAnswer(hasAnomaly: bool, anomalyRoll: bool, draws: seq<int>, playerValid: bool)
      requires Valid()
      requires anomalyRoll ==> PickerReady(anomalyStages.Length, anomalyStageIndex, draws)
      modifies this, anomalyStages, progressObjects
      ensures Valid()
      ensures Snap() == AfterAnswer(Cfg(), old(Snap()), hasAnomaly, anomalyRoll, draws, playerValid)
      ensures log == old(log) + AnswerLog(Cfg(), old(Snap()), hasAnomaly, anomalyRoll, draws, playerValid)
    {
      ghost var sound := AnswerEvents(IsCorrect(hasAnomaly, anomalyStageIndex),
                                      Answered(Snap(), hasAnomaly, anomalyRoll, draws).successStack, maxSuccessStack);
      ScoreAndRepick(hasAnomaly, anomalyRoll, draws);
      ghost var commit := CommitEvents(Cfg(), Snap(), playerValid);
      RequestSerializationForSuccessStack(playerValid);
      LogAppends(old(log), sound, commit);
    }

    /** CheckAnswer up to its commit: the score, its sound and the re-pick. */
    method ScoreAndRepick(hasAnomaly: bool, anomalyRoll: bool, draws: seq<int>)
      requires Valid()
      requires anomalyRoll ==> PickerReady(anomalyStages.Length, anomalyStageIndex, draws)
      modifies this`successStack, this`anomalyStageIndex, this`log
      ensures Valid()
      ensures Snap() == Answered(old(Snap()), hasAnomaly, anomalyRoll, draws)
      ensures log == old(log) + AnswerEvents(IsCorrect(hasAnomaly, old(anomalyStageIndex)), successStack, maxSuccessStack)
    {
      var isCorrect := IsCorrect(hasAnomaly, anomalyStageIndex);
      ApplyScore(isCorrect);
      UpdateAnomalyStageIndex(anomalyRoll, draws);
    }

    /** The scoring branch of CheckAnswer and the sound it broadcasts. */
    method ApplyScore(isCorrect: bool)
      requires Valid()
      modifies this`successStack, this`log
      ensures Valid()
      ensures successStack == Score(old(successStack), isCorrect)
      ensures log == old(log) + AnswerEvents(isCorrect, successStack, maxSuccessStack)
    {
      if isCorrect {
        successStack := ToSbyte(successStack + 1);
        if successStack < maxSuccessStack && successStack >= 0 {
          log := log + [Broadcast(CorrectSound)];
        }
      } else {
        successStack := 0;
        log := log + [Broadcast(WrongSound)];
      }
    }

    method UpdateAnomalyStageIndex(anomalyRoll: bool, draws: seq<int>)
      requires Valid()
      requires anomalyRoll ==> PickerReady(anomalyStages.Length, anomalyStageIndex, draws)
      modifies this`anomalyStageIndex
      ensures Valid()
      ensures anomalyStageIndex == Repick(anomalyStages.Length, old(anomalyStageIndex), anomalyRoll, draws)
    {
      if anomalyRoll {
        var previousIndex := PreviousIndex(anomalyStageIndex);
        var picked := GetRandomStageIndex(ToByte(anomalyStages.Length), previousIndex, draws);
        anomalyStageIndex := ToSbyte(picked);
      } else {
        anomalyStageIndex := -1;
      }
    }

    method BanPlayer(playerValid: bool)
      requires Valid()
      modifies this`isBanned, this`log
      ensures Valid()
      ensures Snap() == AfterBan(old(Snap()))
      ensures log == old(log) + BanEvents(true, playerValid)
    {
      isBanned := true;
      BanBehaviour(playerValid);
    }

    method BanBehaviour(playerValid: bool)
      modifies this`log
      ensures log == old(log) + BanEvents(isBanned, playerValid)
    {
      if isBanned {
        if playerValid {
          log := log + [Teleport(BanRespawn)];
        }
      }
    }
  }

  // ---------------------------------------------------------------------
  // Properties of the transitions

  /** The projection shows the base stage exactly for index -1 and otherwise
      exactly the anomaly stage at the index: one stage object is on. */
  lemma ExactlyOneStageShown(c: Config, s: Snapshot, playerValid: bool)
    requires WellFormed(s) && !s.isBanned
    ensures var t := Synced(c, s, playerValid);
      (IsActive(t.baseStage) <==> s.anomalyStageIndex == -1) &&
      (forall j :: 0 <= j < |t.anomalyStages| ==> (IsActive(t.anomalyStages[j]) <==> j == s.anomalyStageIndex)) &&
      CountActive([t.baseStage] + t.anomalyStages) == 1
  {
    var t := Synced(c, s, playerValid);
    ShowOnlyShowsAtMostOne(s.anomalyStages, s.anomalyStageIndex);
    assert ([t.baseStage] + t.anomalyStages)[1..] == t.anomalyStages;
  }

  /** With one marker per success, the projection lights marker i exactly
      when i < successStack (for a marker that is assigned). */
  lemma ProgressShowsStack(c: Config, s: Snapshot, playerValid: bool)
    requires !s.isBanned && |s.progressObjects| == c.maxSuccessStack
    ensures var t := Synced(c, s, playerValid);
      forall j :: 0 <= j < |t.progressObjects| ==>
        (IsActive(t.progressObjects[j]) <==> j < s.successStack && s.progressObjects[j].Present?)
    ensures (forall j :: 0 <= j < |s.progressObjects| ==> s.progressObjects[j].Present?) &&
            0 <= s.successStack <= c.maxSuccessStack ==>
            CountActive(Synced(c, s, playerValid).progressObjects) == s.successStack
  {
    if (forall j :: 0 <= j < |s.progressObjects| ==> s.progressObjects[j].Present?) &&
       0 <= s.successStack <= c.maxSuccessStack {
      CountLightUpTo(s.progressObjects, s.successStack);
      CountPresentAll(s.progressObjects[..s.successStack]);
    }
  }

  /** Running the projection a second time changes nothing: the clamp does
      not move the stack out of its phase or change which markers are lit. */
  lemma ProjectionIdempotent(c: Config, s: Snapshot, playerValid: bool)
    requires ConfigOk(c) && WellFormed(s)
    ensures Synced(c, Synced(c, s, playerValid), playerValid) == Synced(c, s, playerValid)
  {
    if !s.isBanned {
      var t := Synced(c, s, playerValid);
      UpdatesIdempotent(s.anomalyStages, s.anomalyStageIndex);
      if |s.progressObjects| == c.maxSuccessStack {
        var once := LightUpTo(s.progressObjects, s.successStack);
        assert t.successStack >= c.maxSuccessStack ==> s.successStack >= c.maxSuccessStack;
        assert forall j :: 0 <= j < |once| ==> LightUpTo(once, t.successStack)[j] == once[j];
        assert LightUpTo(once, t.successStack) == once;
      }
    }
  }

  /** Every client that applies the same synced fields ends with the same
      visible state, whatever each of them showed before. */
  lemma ProjectionConverges(c: Config, s1: Snapshot, s2: Snapshot, playerValid: bool)
    requires !s1.isBanned && !s2.isBanned
    requires s1.successStack == s2.successStack && s1.anomalyStageIndex == s2.anomalyStageIndex
    requires s1.baseStage.Present? == s2.baseStage.Present?
    requires SamePresence(s1.anomalyStages, s2.anomalyStages)
    requires SamePresence(s1.progressObjects, s2.progressObjects)
    requires |s1.progressObjects| == c.maxSuccessStack
    ensures var t1, t2 := Synced(c, s1, playerValid), Synced(c, s2, playerValid);
      t1.successStack == t2.successStack && t1.baseStage == t2.baseStage &&
      t1.anomalyStages == t2.anomalyStages && t1.progressObjects == t2.progressObjects
  {
    ShowOnlyForgetsPriorState(s1.anomalyStages, s2.anomalyStages, s1.anomalyStageIndex);
    LightUpToForgetsPriorState(s1.progressObjects, s2.progressObjects, s1.successStack);
  }

  /** A correct answer adds exactly one while the game is short of its
      target; a wrong answer puts the stack at 0 (never -1) from any value. */
  lemma AnswerScoring(c: Config, s: Snapshot, hasAnomaly: bool, anomalyRoll: bool, draws: seq<int>,
                      playerValid: bool)
    requires ConfigOk(c) && AnswerReady(s, anomalyRoll, draws)
    ensures var t := AfterAnswer(c, s, hasAnomaly, anomalyRoll, draws, playerValid);
      var correct := IsCorrect(hasAnomaly, s.anomalyStageIndex);
      (!correct ==> t.successStack == 0) &&
      (correct && -1 <= s.successStack < c.maxSuccessStack && s.successStack < 127 ==>
         t.successStack == s.successStack + 1)
  {
  }

  /** For a client whose player is valid and who is not banned, the stack
      stays within -1..maxSuccessStack across resets, starts and answers, and
      is in play or cleared after any start or answer. */
  lemma SessionRange(c: Config, s: Snapshot, hasAnomaly: bool, anomalyRoll: bool, draws: seq<int>)
    requires ConfigOk(c) && c.maxSuccessStack < 127
    requires AnswerReady(s, anomalyRoll, draws) && !s.isBanned
    requires -1 <= s.successStack <= c.maxSuccessStack
    ensures var t := AfterAnswer(c, s, hasAnomaly, anomalyRoll, draws, true);
      0 <= t.successStack <= c.maxSuccessStack
    ensures WellFormed(AfterAnswer(c, s, hasAnomaly, anomalyRoll, draws, true))
    ensures 0 <= AfterStart(c, s, true).successStack <= c.maxSuccessStack
    ensures -1 <= AfterReset(c, s, true).successStack <= c.maxSuccessStack
    ensures -1 <= Synced(c, s, true).successStack <= c.maxSuccessStack
  {
    var a := Answered(s, hasAnomaly, anomalyRoll, draws);
    ShowOnlyShowsAtMostOne(a.anomalyStages, a.anomalyStageIndex);
    assert forall j :: 0 <= j < |a.anomalyStages| ==>
      ShowOnly(a.anomalyStages, a.anomalyStageIndex)[j].Present?;
  }

  /** The bound in SessionRange is needed: with a target of 127, a correct
      answer in the cleared state wraps the sbyte stack to -128 before the
      clamp can apply, sending the session back to the pre-game phase. */
  lemma TargetOf127Wraps(c: Config, s: Snapshot, anomalyRoll: bool, draws: seq<int>)
    requires ConfigOk(c) && AnswerReady(s, anomalyRoll, draws) && !s.isBanned
    requires c.maxSuccessStack == 127 && s.successStack == 127 && s.anomalyStageIndex == -1
    ensures var t := AfterAnswer(c, s, false, anomalyRoll, draws, true);
      t.successStack == -128 && PhaseOf(t.successStack, c.maxSuccessStack) == PreGame
  {
  }

  /** A byte target of 128 or more is out of the sbyte stack's reach: no
      answer ever clears the game, and a correct answer at 127 wraps the
      stack to -128, the pre-game phase. */
  lemma HighTargetNeverCleared(c: Config, s: Snapshot, hasAnomaly: bool, anomalyRoll: bool, draws: seq<int>,
                               playerValid: bool)
    requires ConfigOk(c) && c.maxSuccessStack >= 128 && AnswerReady(s, anomalyRoll, draws)
    ensures var t := AfterAnswer(c, s, hasAnomaly, anomalyRoll, draws, playerValid);
      PhaseOf(t.successStack, c.maxSuccessStack) != Cleared &&
      (s.successStack == 127 && IsCorrect(hasAnomaly, s.anomalyStageIndex) ==>
         t.successStack == -128 && PhaseOf(t.successStack, c.maxSuccessStack) == PreGame)
  {
  }

  /** As written, CheckAnswer does not look at the ban flag, and a banned
      client skips the clamp: a banned player's correct answers keep
      counting past the target. */
  lemma BannedAnswersStillScore(c: Config, s: Snapshot, anomalyRoll: bool, draws: seq<int>, playerValid: bool)
    requires ConfigOk(c) && AnswerReady(s, anomalyRoll, draws)
    requires s.isBanned && s.anomalyStageIndex != -1 && s.successStack == c.maxSuccessStack && c.maxSuccessStack < 127
    ensures AfterAnswer(c, s, true, anomalyRoll, draws, playerValid).successStack == c.maxSuccessStack + 1
  {
  }

  /** The ban flag is one-way: BanPlayer sets it, and no other operation
      changes it. A banned client's start request changes nothing. */
  lemma BanIsPermanent(c: Config, s: Snapshot, hasAnomaly: bool, anomalyRoll: bool, draws: seq<int>,
                       playerValid: bool)
    requires AnswerReady(s, anomalyRoll, draws)
    ensures AfterBan(s).isBanned
    ensures AfterReset(c, s, playerValid).isBanned == s.isBanned
    ensures AfterStart(c, s, playerValid).isBanned == s.isBanned
    ensures AfterAnswer(c, s, hasAnomaly, anomalyRoll, draws, playerValid).isBanned == s.isBanned
    ensures Synced(c, s, playerValid).isBanned == s.isBanned
    ensures s.isBanned ==> AfterStart(c, s, playerValid) == s
    ensures s.isBanned ==> Synced(c, s, playerValid) == s
  {
  }

  /** The owner's reset returns to "not started" with the normal stage;
      anyone else's reset changes nothing. */
  lemma ResetOutcome(c: Config, s: Snapshot, playerValid: bool)
    requires ConfigOk(c)
    ensures var t := AfterReset(c, s, playerValid);
      (s.isOwner ==> t.successStack == -1 && t.anomalyStageIndex == -1) &&
      (!s.isOwner ==> t == s && ResetEvents(c, s, playerValid) == [])
  {
  }

  /** StartGame leaves a banned client as it was; anyone else starts at 0,
      whatever the target, with the stage and ban flag kept. */
  lemma StartOutcome(c: Config, s: Snapshot, playerValid: bool)
    requires ConfigOk(c)
    ensures var t := AfterStart(c, s, playerValid);
      (s.isBanned ==> t == s && StartEvents(c, s, playerValid) == BanEvents(true, playerValid)) &&
      (!s.isBanned ==> t.successStack == 0 && t.anomalyStageIndex == s.anomalyStageIndex && !t.isBanned && t.isOwner)
  {
  }

  /** The clamp of the projection: a valid player's stack at or above the
      target becomes the target and stays in the cleared phase; below the
      target, or for an invalid player, the stack is left alone. */
  lemma ClampToTarget(c: Config, successStack: int, playerValid: bool)
    requires ConfigOk(c) && IsSbyte(successStack)
    ensures var r := Settle(successStack, c.maxSuccessStack, playerValid);
      (playerValid && successStack >= c.maxSuccessStack ==> r == c.maxSuccessStack) &&
      (!playerValid || successStack < c.maxSuccessStack ==> r == successStack) &&
      PhaseOf(r, c.maxSuccessStack) == PhaseOf(successStack, c.maxSuccessStack)
  {
  }

  /** The projection sends a valid player to the exit exactly when the stack
      has reached the target, to the game-start point exactly while it is in
      0..target-1, and to the initial spawn exactly before the game starts;
      an invalid player is not moved at all. */
  lemma {:induction false} PhaseTeleports(c: Config, successStack: int, playerValid: bool)
    ensures var e := PhaseEvents(c, successStack, playerValid);
      (Teleport(Exit) in e <==> playerValid && successStack >= c.maxSuccessStack) &&
      (Teleport(GameStart) in e <==> playerValid && 0 <= successStack < c.maxSuccessStack) &&
      (Teleport(InitialSpawn) in e <==> playerValid && successStack < 0 && successStack < c.maxSuccessStack)
  {
    var e := PhaseEvents(c, successStack, playerValid);
    if playerValid && successStack >= c.maxSuccessStack {
      var pre := if c.soundEffectAssigned then [PlayLocal(ClearSound)] else [];
      assert e == pre + [Teleport(Exit), PlayBgm(ClearBgm)];
      assert e[|pre|] == Teleport(Exit);
    }
  }
}
