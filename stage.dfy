/** One stage of the game (Stage.cs): a base object, its anomaly variants,
    a row of progress markers and a "cleared" object, all toggled in place. */
module Stages {
  import opened Scene

  class Stage {
    const stageIndex: int
    const maxSuccessStack: int
    const anomalyProbability: int
    var baseStageObject: Slot
    /** null when the inspector array is unassigned */
    const anomalyStageObjects: array?<Slot>
    const progressObjects: array?<Slot>
    var clearObject: Slot

    /** The variant and progress arrays are distinct arrays. */
    predicate Valid() {
      anomalyStageObjects != null && progressObjects != null ==> anomalyStageObjects != progressObjects
    }

    constructor (stageIndex: int, maxSuccessStack: int, anomalyProbability: int, baseStageObject: Slot,
                 anomalyStageObjects: array?<Slot>, progressObjects: array?<Slot>, clearObject: Slot)
      requires anomalyStageObjects != null && progressObjects != null ==> anomalyStageObjects != progressObjects
      ensures Valid()
      ensures this.stageIndex == stageIndex && this.maxSuccessStack == maxSuccessStack
      ensures this.anomalyProbability == anomalyProbability
      ensures this.baseStageObject == baseStageObject && this.clearObject == clearObject
      ensures this.anomalyStageObjects == anomalyStageObjects && this.progressObjects == progressObjects
    {
      this.stageIndex := stageIndex;
      this.maxSuccessStack := maxSuccessStack;
      this.anomalyProbability := anomalyProbability;
      this.baseStageObject := baseStageObject;
      this.anomalyStageObjects := anomalyStageObjects;
      this.progressObjects := progressObjects;
      this.clearObject := clearObject;
    }

    /** Number of anomaly variants, as the byte the source returns. */
    function GetAnomalyStageCount(): (r: int)
      ensures IsByte(r)
      ensures anomalyStageObjects == null ==> r == 0
      ensures anomalyStageObjects != null && anomalyStageObjects.Length < 256 ==> r == anomalyStageObjects.Length
    {
      if anomalyStageObjects == null then 0 else ToByte(anomalyStageObjects.Length)
    }

    /** Shows the base object for -1, variant k for an index of the variant
        array, and nothing for any other value. Iterating over an unassigned
        variant array throws in the source, hence the requires. */
    method UpdateStage(anomalyStageIndex: int)
      requires IsSbyte(anomalyStageIndex)
      requires anomalyStageObjects != null
      modifies this`baseStageObject, anomalyStageObjects
      ensures baseStageObject == SetActive(old(baseStageObject), anomalyStageIndex == -1)
      ensures anomalyStageObjects[..] == ShowOnly(old(anomalyStageObjects[..]), anomalyStageIndex)
    {
      if baseStageObject.Present? {
        baseStageObject := Present(false);
      }
      var objs := anomalyStageObjects;
      var i := 0;
      while i < objs.Length
        invariant 0 <= i <= objs.Length
        invariant baseStageObject == SetActive(old(baseStageObject), false)
        invariant forall j :: 0 <= j < i ==> objs[j] == SetActive(old(objs[j]), false)
        invariant forall j :: i <= j < objs.Length ==> objs[j] == old(objs[j])
      {
        if objs[i].Present? {
          objs[i] := Present(false);
        }
        i := i + 1;
      }
      if anomalyStageIndex == -1 {
        if baseStageObject.Present? {
          baseStageObject := Present(true);
        }
      } else if 0 <= anomalyStageIndex < objs.Length {
        if objs[anomalyStageIndex].Present? {
          objs[anomalyStageIndex] := Present(true);
        }
      }
      assert forall j :: 0 <= j < objs.Length ==>
        objs[..][j] == ShowOnly(old(objs[..]), anomalyStageIndex)[j];
    }

    /** Lights marker i exactly when i < successStack. The loop counter is a
        byte, so the source never leaves the loop for an array of 256 or more
        markers, hence the requires. */
    method UpdateProgressObjects(successStack: int)
      requires IsByte(successStack)
      requires progressObjects != null ==> progressObjects.Length < 256
      modifies progressObjects
      ensures progressObjects != null ==> progressObjects[..] == LightUpTo(old(progressObjects[..]), successStack)
    {
      if progressObjects == null {
        return;
      }
      var objs := progressObjects;
      var i := 0;
      while i < objs.Length
        invariant 0 <= i <= objs.Length
        invariant forall j :: 0 <= j < i ==> objs[j] == SetActive(old(objs[j]), j < successStack)
        invariant forall j :: i <= j < objs.Length ==> objs[j] == old(objs[j])
      {
        if objs[i].Present? {
          objs[i] := Present(i < successStack);
        }
        i := i + 1;
      }
      assert forall j :: 0 <= j < objs.Length ==>
        objs[..][j] == LightUpTo(old(objs[..]), successStack)[j];
    }

    method ToggleClearObjects(active: bool)
      modifies this`clearObject
      ensures clearObject == SetActive(old(clearObject), active)
    {
      if !clearObject.Present? {
        return;
      }
      clearObject := Present(active);
    }

    /** Back to the normal configuration: base shown, no variant, no marker, not cleared. */
    method Reset()
      requires Valid()
      requires anomalyStageObjects != null
      requires progressObjects != null ==> progressObjects.Length < 256
      modifies this`baseStageObject, this`clearObject, anomalyStageObjects, progressObjects
      ensures baseStageObject == SetActive(old(baseStageObject), true)
      ensures anomalyStageObjects[..] == ShowOnly(old(anomalyStageObjects[..]), -1)
      ensures progressObjects != null ==> progressObjects[..] == LightUpTo(old(progressObjects[..]), 0)
      ensures clearObject == SetActive(old(clearObject), false)
      ensures CountActive(anomalyStageObjects[..]) == 0
      ensures progressObjects != null ==> CountActive(progressObjects[..]) == 0
    {
      UpdateStage(-1);
      UpdateProgressObjects(0);
      ToggleClearObjects(false);
      ShowOnlyShowsAtMostOne(old(anomalyStageObjects[..]), -1);
      if progressObjects != null {
        CountLightUpTo(old(progressObjects[..]), 0);
        assert old(progressObjects[..])[..0] == [];
      }
    }
  }
}
