/** The no-immediate-repeat picker of Utils.cs.

    `Random.Range(0, maxIndex)` is not modelled as a random source: the
    successive values it would return are a sequence `draws`, each one a
    value Random.Range can return. The retry loop takes draws until one
    passes its exit test; a stream in which none passes is a run on which the
    source never returns, so the picker requires that some draw passes. */
module Utils {
  import opened Scene

  /** The byte value that stands for "there is no previous index". */
  const NoPrevious := 255

  /** A value `Random.Range(0, maxIndex)` can return: 0 <= d < maxIndex, and
      exactly 0 when the range is empty (Unity returns the lower bound). */
  predicate InDrawRange(d: int, maxIndex: int) {
    if maxIndex <= 0 then d == 0 else 0 <= d < maxIndex
  }

  /** The exit test of the do-while loop: a draw is kept unless there is a
      previous index and the draw repeats it. */
  predicate Accepts(d: int, previousIndex: int) {
    previousIndex == NoPrevious || d != previousIndex
  }

  /** Some draw of the stream passes the exit test, so the loop returns. */
  predicate Exits(draws: seq<int>, previousIndex: int) {
    exists k :: 0 <= k < |draws| && Accepts(draws[k], previousIndex)
  }

  /** The draw the retry loop returns: the first one that passes the exit test. */
  function FirstAccepted(draws: seq<int>, previousIndex: int): (r: int)
    requires Exits(draws, previousIndex)
    ensures Accepts(r, previousIndex)
    ensures r in draws
    decreases |draws|
  {
    if Accepts(draws[0], previousIndex) then draws[0]
    else
      assert Exits(draws[1..], previousIndex) by {
        var k :| 0 <= k < |draws| && Accepts(draws[k], previousIndex);
        assert draws[1..][k - 1] == draws[k];
      }
      FirstAccepted(draws[1..], previousIndex)
  }

  /** Draws a stage index below maxIndex that differs from previousIndex
      (255 meaning "no previous index"). */
  method GetRandomStageIndex(maxIndex: int, previousIndex: int, draws: seq<int>) returns (randomIndex: int)
    requires IsByte(maxIndex) && IsByte(previousIndex)
    requires forall k :: 0 <= k < |draws| ==> InDrawRange(draws[k], maxIndex)
    requires Exits(draws, previousIndex)
    ensures randomIndex == FirstAccepted(draws, previousIndex)
    ensures maxIndex >= 1 ==> 0 <= randomIndex < maxIndex
    ensures maxIndex == 0 ==> randomIndex == 0
    ensures previousIndex != NoPrevious ==> randomIndex != previousIndex
    ensures previousIndex == NoPrevious ==> randomIndex == draws[0]
  {
    var i := 0;
    randomIndex := ToByte(draws[0]);
    assert draws[0..] == draws;
    while previousIndex != NoPrevious && randomIndex == previousIndex
      invariant 0 <= i < |draws| && randomIndex == draws[i]
      invariant Exits(draws[i..], previousIndex)
      invariant FirstAccepted(draws[i..], previousIndex) == FirstAccepted(draws, previousIndex)
      decreases |draws| - i
    {
      assert draws[i..][1..] == draws[i + 1..];
      i := i + 1;
      randomIndex := ToByte(draws[i]);
    }
    assert draws[i..][0] == draws[i];
  }

  /** The loop can return at all exactly when some value in the draw range
      differs from the previous index: it hangs when the range holds the
      previous index alone (maxIndex <= 1 with previousIndex == 0). */
  lemma ExitPossible(maxIndex: int, previousIndex: int)
    requires IsByte(maxIndex) && IsByte(previousIndex)
    ensures (exists d :: InDrawRange(d, maxIndex) && Accepts(d, previousIndex)) <==>
            (maxIndex >= 2 || previousIndex != 0)
  {
    if maxIndex >= 2 || previousIndex != 0 {
      var d := if previousIndex != 0 then 0 else 1;
      assert InDrawRange(d, maxIndex) && Accepts(d, previousIndex);
    } else {
      forall d | InDrawRange(d, maxIndex)
        ensures !Accepts(d, previousIndex)
      {
      }
    }
  }
}
