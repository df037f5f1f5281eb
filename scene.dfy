/** Scene objects as the game scripts see them, and the integer casts the
    scripts rely on.

    A GameObject reference held by a script is a `Slot`: either missing
    (unassigned or destroyed, so `Utilities.IsValid` fails) or present with
    its active flag. `SetActive` is only ever applied to a present object. */
module Scene {

  datatype Slot = Missing | Present(active: bool)

  predicate IsActive(s: Slot) {
    s.Present? && s.active
  }

  /** `obj.SetActive(on)` guarded by a validity check: a missing object stays missing. */
  function SetActive(s: Slot, on: bool): Slot {
    if s.Present? then Present(on) else Missing
  }

  /** Both sequences reference objects at the same positions (they may differ in active flags). */
  predicate SamePresence(a: seq<Slot>, b: seq<Slot>) {
    |a| == |b| && forall j :: 0 <= j < |a| ==> (a[j].Present? <==> b[j].Present?)
  }

  /** Every present object switched off, then the one at index k, if there is one, switched on. */
  function ShowOnly(objs: seq<Slot>, k: int): seq<Slot> {
    seq(|objs|, j requires 0 <= j < |objs| => SetActive(objs[j], j == k))
  }

  /** Progress markers: every present object at an index below n switched on, the others off. */
  function LightUpTo(objs: seq<Slot>, n: int): seq<Slot> {
    seq(|objs|, j requires 0 <= j < |objs| => SetActive(objs[j], j < n))
  }

  function CountActive(objs: seq<Slot>): nat {
    if objs == [] then 0 else (if IsActive(objs[0]) then 1 else 0) + CountActive(objs[1..])
  }

  function CountPresent(objs: seq<Slot>): nat {
    if objs == [] then 0 else (if objs[0].Present? then 1 else 0) + CountPresent(objs[1..])
  }

  /** ShowOnly leaves exactly the object at k on, when k is an index of a
      present object, and every other object off. */
  lemma {:induction false} ShowOnlyShowsAtMostOne(objs: seq<Slot>, k: int)
    ensures forall j :: 0 <= j < |objs| ==> (IsActive(ShowOnly(objs, k)[j]) <==> j == k && objs[j].Present?)
    ensures CountActive(ShowOnly(objs, k)) == if 0 <= k < |objs| && objs[k].Present? then 1 else 0
    decreases |objs|
  {
    if objs != [] {
      var r := ShowOnly(objs, k);
      assert r[1..] == ShowOnly(objs[1..], k - 1);
      ShowOnlyShowsAtMostOne(objs[1..], k - 1);
      if 1 <= k < |objs| {
        assert objs[1..][k - 1] == objs[k];
      }
    }
  }

  /** LightUpTo switches on exactly the present objects among the first n. */
  lemma {:induction false} CountLightUpTo(objs: seq<Slot>, n: int)
    ensures CountActive(LightUpTo(objs, n)) ==
            CountPresent(objs[..if n <= 0 then 0 else if n >= |objs| then |objs| else n])
    decreases |objs|
  {
    var m := if n <= 0 then 0 else if n >= |objs| then |objs| else n;
    if objs == [] {
      assert objs[..m] == [];
    } else {
      var r := LightUpTo(objs, n);
      assert r[1..] == LightUpTo(objs[1..], n - 1);
      CountLightUpTo(objs[1..], n - 1);
      var m' := if n - 1 <= 0 then 0 else if n - 1 >= |objs| - 1 then |objs| - 1 else n - 1;
      if m == 0 {
        assert objs[..m] == [];
        assert objs[1..][..m'] == [];
      } else {
        assert m' == m - 1;
        assert objs[..m][1..] == objs[1..][..m'];
      }
    }
  }

  /** When every object is present, all of them are counted. */
  lemma {:induction false} CountPresentAll(objs: seq<Slot>)
    requires forall j :: 0 <= j < |objs| ==> objs[j].Present?
    ensures CountPresent(objs) == |objs|
    decreases |objs|
  {
    if objs != [] {
      CountPresentAll(objs[1..]);
    }
  }

  /** What ShowOnly produces depends only on which objects are present, not on their prior flags. */
  lemma ShowOnlyForgetsPriorState(a: seq<Slot>, b: seq<Slot>, k: int)
    requires SamePresence(a, b)
    ensures ShowOnly(a, k) == ShowOnly(b, k)
  {
    assert forall j :: 0 <= j < |a| ==> ShowOnly(a, k)[j] == ShowOnly(b, k)[j];
  }

  /** What LightUpTo produces depends only on which objects are present, not on their prior flags. */
  lemma LightUpToForgetsPriorState(a: seq<Slot>, b: seq<Slot>, n: int)
    requires SamePresence(a, b)
    ensures LightUpTo(a, n) == LightUpTo(b, n)
  {
    assert forall j :: 0 <= j < |a| ==> LightUpTo(a, n)[j] == LightUpTo(b, n)[j];
  }

  /** Showing k (or lighting markers below k) a second time changes nothing. */
  lemma UpdatesIdempotent(objs: seq<Slot>, k: int)
    ensures ShowOnly(ShowOnly(objs, k), k) == ShowOnly(objs, k)
    ensures LightUpTo(LightUpTo(objs, k), k) == LightUpTo(objs, k)
  {
    ShowOnlyForgetsPriorState(ShowOnly(objs, k), objs, k);
    LightUpToForgetsPriorState(LightUpTo(objs, k), objs, k);
  }

  // Integer widths of the C# source: `byte` is 0..255, `sbyte` is -128..127.

  predicate IsByte(x: int) {
    0 <= x < 256
  }

  predicate IsSbyte(x: int) {
    -128 <= x < 128
  }

  /** The C# `(byte)` cast: reduction modulo 256. */
  function ToByte(x: int): (r: int)
    ensures IsByte(r)
    ensures IsByte(x) ==> r == x
  {
    x % 256
  }

  /** The C# `(sbyte)` cast: reduction modulo 256 into -128..127 (an `sbyte` increment wraps 127 to -128). */
  function ToSbyte(x: int): (r: int)
    ensures IsSbyte(r)
    ensures IsSbyte(x) ==> r == x
    ensures x == 128 ==> r == -128
  {
    var b := x % 256;
    if b < 128 then b else b - 256
  }
}
