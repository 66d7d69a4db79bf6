/** The round-robin worship-leader rotation: a list of names and a cursor into it. */
module Rotation {
  import opened Wrappers
  import opened People

  /** The name at rotation position `q` belongs to someone in `eligible`. */
  predicate EligibleAt(rotation: seq<string>, eligible: seq<Person>, q: int)
    requires 0 <= q < |rotation|
  {
    FirstNamed(eligible, rotation[q]).Some?
  }

  /** One step around the rotation: the position after `pos`, wrapping to the start. */
  function Wrap(pos: nat, n: nat): (r: nat)
    requires pos < n
    ensures r < n && r == (pos + 1) % n
  {
    if pos + 1 == n then
      assert (pos + 1) % n == 0;
      0
    else
      assert (pos + 1) % n == pos + 1;
      pos + 1
  }

  /** The position `k` steps after `pos`, wrapping around. */
  function Offset(pos: nat, k: nat, n: nat): (r: nat)
    requires pos < n
    ensures r < n
    ensures k < n ==> r == if pos + k < n then pos + k else pos + k - n
    decreases k
  {
    if k == 0 then pos else Offset(Wrap(pos, n), k - 1, n)
  }

  /** The name `k` positions after `pos`, wrapping around, is eligible. */
  predicate EligibleAfter(rotation: seq<string>, eligible: seq<Person>, pos: nat, k: nat)
    requires pos < |rotation|
  {
    EligibleAt(rotation, eligible, Offset(pos, k, |rotation|))
  }

  /** Looks at up to `steps` rotation positions starting at `pos` and wrapping around; the first
      position whose name is eligible, or None. */
  function Scan(rotation: seq<string>, eligible: seq<Person>, pos: nat, steps: nat): (r: Option<nat>)
    requires pos < |rotation|
    ensures r.Some? ==> r.value < |rotation| && EligibleAt(rotation, eligible, r.value)
    decreases steps
  {
    if steps == 0 then None
    else if EligibleAt(rotation, eligible, pos) then Some(pos)
    else Scan(rotation, eligible, Wrap(pos, |rotation|), steps - 1)
  }

  /** Scan finds the first eligible position in circular order from `pos`: None iff none of the
      `steps` positions visited is eligible; otherwise the position k steps on, eligible, with
      every position before it ineligible. */
  lemma {:induction false} ScanIsFirstCircularMatch(rotation: seq<string>, eligible: seq<Person>, pos: nat, steps: nat)
    requires pos < |rotation|
    ensures Scan(rotation, eligible, pos, steps).None? <==>
      forall k :: 0 <= k < steps ==> !EligibleAfter(rotation, eligible, pos, k)
    ensures Scan(rotation, eligible, pos, steps).Some? ==>
      exists k :: 0 <= k < steps && EligibleAfter(rotation, eligible, pos, k) &&
        Scan(rotation, eligible, pos, steps).value == Offset(pos, k, |rotation|) &&
        forall j :: 0 <= j < k ==> !EligibleAfter(rotation, eligible, pos, j)
    decreases steps
  {
    var n := |rotation|;
    if steps == 0 {
    } else if EligibleAt(rotation, eligible, pos) {
      assert EligibleAfter(rotation, eligible, pos, 0);
    } else {
      var next := Wrap(pos, n);
      assert !EligibleAfter(rotation, eligible, pos, 0);
      ScanIsFirstCircularMatch(rotation, eligible, next, steps - 1);
      if Scan(rotation, eligible, next, steps - 1).Some? {
        var k :| 0 <= k < steps - 1 && EligibleAfter(rotation, eligible, next, k) &&
          Scan(rotation, eligible, next, steps - 1).value == Offset(next, k, n) &&
          forall j :: 0 <= j < k ==> !EligibleAfter(rotation, eligible, next, j);
        assert Offset(pos, k + 1, n) == Offset(next, k, n);
        assert EligibleAfter(rotation, eligible, pos, k + 1);
        forall j | 0 <= j < k + 1 ensures !EligibleAfter(rotation, eligible, pos, j) {
          if j > 0 {
            assert Offset(pos, j, n) == Offset(next, j - 1, n);
            assert !EligibleAfter(rotation, eligible, next, j - 1);
          }
        }
      } else {
        forall k | 0 <= k < steps ensures !EligibleAfter(rotation, eligible, pos, k) {
          if k > 0 {
            assert Offset(pos, k, n) == Offset(next, k - 1, n);
            assert !EligibleAfter(rotation, eligible, next, k - 1);
          }
        }
      }
    }
  }

  /** One selection: the person picked (if any) and the cursor afterwards. */
  datatype Selection = Selection(picked: Option<Person>, nextIndex: int)

  /** The selection from `eligible` with the cursor at `index`: nothing (and the cursor kept)
      when either list is empty or no rotation name is eligible; otherwise the eligible person
      named at the first eligible position in circular order, with the cursor just past it. */
  function Select(rotation: seq<string>, index: int, eligible: seq<Person>): (s: Selection)
    requires rotation == [] || 0 <= index < |rotation|
    ensures rotation != [] ==> 0 <= s.nextIndex < |rotation|
    ensures s.picked.None? ==> s.nextIndex == index
    ensures s.picked.Some? ==> s.picked.value in eligible && s.picked.value.name in rotation
  {
    if eligible == [] || rotation == [] then Selection(None, index)
    else match Scan(rotation, eligible, index, |rotation|)
      case None => Selection(None, index)
      case Some(p) =>
        var leader := FirstNamed(eligible, rotation[p]);
        assert leader.value in eligible by {
          var i :| 0 <= i < |eligible| && eligible[i] == leader.value &&
                   forall j :: 0 <= j < i ==> eligible[j].name != rotation[p];
        }
        Selection(leader, Wrap(p, |rotation|))
  }

  /** The selection, stated without Scan: nothing is picked iff no rotation name is eligible
      (or a list is empty); otherwise the pick is the first eligible person named at the first
      eligible rotation position, k steps from the cursor, and the cursor moves just past it. */
  lemma SelectIsFirstCircularMatch(rotation: seq<string>, index: int, eligible: seq<Person>)
    requires rotation == [] || 0 <= index < |rotation|
    ensures eligible == [] || rotation == [] ==> Select(rotation, index, eligible) == Selection(None, index)
    ensures eligible != [] && rotation != [] ==>
      (Select(rotation, index, eligible).picked.None? <==>
        forall k :: 0 <= k < |rotation| ==> !EligibleAfter(rotation, eligible, index, k))
    ensures eligible != [] && rotation != [] && Select(rotation, index, eligible).picked.Some? ==>
      exists k :: 0 <= k < |rotation| && EligibleAfter(rotation, eligible, index, k) &&
        (forall j :: 0 <= j < k ==> !EligibleAfter(rotation, eligible, index, j)) &&
        Select(rotation, index, eligible) ==
          Selection(FirstNamed(eligible, rotation[Offset(index, k, |rotation|)]),
                    Wrap(Offset(index, k, |rotation|), |rotation|))
  {
    if eligible != [] && rotation != [] {
      ScanIsFirstCircularMatch(rotation, eligible, index, |rotation|);
    }
  }

  /** The people picked by `k` successive selections starting with the cursor at `index`. */
  function Rounds(rotation: seq<string>, index: int, eligible: seq<Person>, k: nat): (picks: seq<Option<Person>>)
    requires 0 <= index < |rotation|
    ensures |picks| == k
    decreases k
  {
    if k == 0 then []
    else
      var s := Select(rotation, index, eligible);
      [s.picked] + Rounds(rotation, s.nextIndex, eligible, k - 1)
  }

  /** Fairness: when every rotation name is eligible, successive selections walk the rotation
      in order from the cursor, wrapping around, so each name is picked once per lap. */
  lemma {:induction false} RotationCyclesInOrder(rotation: seq<string>, index: int, eligible: seq<Person>, k: nat)
    requires eligible != [] && 0 <= index < |rotation|
    requires forall q :: 0 <= q < |rotation| ==> EligibleAt(rotation, eligible, q)
    ensures forall j :: 0 <= j < k ==>
      Rounds(rotation, index, eligible, k)[j] == FirstNamed(eligible, rotation[Offset(index, j, |rotation|)])
    decreases k
  {
    var n := |rotation|;
    if k > 0 {
      var s := Select(rotation, index, eligible);
      assert Scan(rotation, eligible, index, n) == Some(index);
      assert s == Selection(FirstNamed(eligible, rotation[index]), Wrap(index, n));
      RotationCyclesInOrder(rotation, s.nextIndex, eligible, k - 1);
      var picks := Rounds(rotation, index, eligible, k);
      forall j | 0 <= j < k ensures picks[j] == FirstNamed(eligible, rotation[Offset(index, j, n)]) {
        if j > 0 {
          assert picks[j] == Rounds(rotation, s.nextIndex, eligible, k - 1)[j - 1];
          assert Offset(index, j, n) == Offset(s.nextIndex, j - 1, n);
        }
      }
    }
  }

  class WorshipLeaderSelector {
    const rotation: seq<string>
    var index: int

    /** The cursor points into the rotation (any cursor will do for an empty rotation). */
    ghost predicate Valid()
      reads this
    {
      rotation == [] || 0 <= index < |rotation|
    }

    constructor(rotation: seq<string>, index: int)
      requires rotation == [] || 0 <= index < |rotation|
      ensures this.rotation == rotation && this.index == index && Valid()
    {
      this.rotation := rotation;
      this.index := index;
    }

    /** Picks the next eligible worship leader in rotation order from the cursor and moves the
        cursor just past the pick; the cursor stays put when nobody is picked. */
    method GetNext(eligible: seq<Person>) returns (leader: Option<Person>)
      requires Valid()
      modifies this
      ensures Valid()
      ensures leader == Select(rotation, old(index), eligible).picked
      ensures index == Select(rotation, old(index), eligible).nextIndex
    {
      if eligible == [] || rotation == [] {
        return None;
      }
      var n := |rotation|;
      var next := index;
      var i := 0;
      while i < n
        invariant 0 <= i <= n && 0 <= next < n
        invariant index == old(index)
        invariant Scan(rotation, eligible, index, n) == Scan(rotation, eligible, next, n - i)
      {
        var candidate := FirstNamed(eligible, rotation[next]);
        if candidate.Some? {
          index := (next + 1) % n;
          return candidate;
        }
        next := (next + 1) % n;
        i := i + 1;
      }
      return None;
    }
  }
}
